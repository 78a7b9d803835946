/** All-occurrences text replacement, as Foundation's
    `String.replacingOccurrences(of:with:)` performs it for a non-empty target,
    here compared literally on Unicode scalar values (Foundation's own
    comparison uses canonical equivalence, which this model leaves out):
    the text is scanned left to right, and after each match the scan resumes
    just past the matched occurrence, so occurrences never overlap. */
module Replace {

  /** `m` occurs in `t` starting at index `i`. */
  ghost predicate OccursAt(t: string, m: string, i: nat) {
    i + |m| <= |t| && t[i..i + |m|] == m
  }

  /** `m` occurs somewhere in `t`. */
  ghost predicate Contains(t: string, m: string) {
    exists i: nat :: OccursAt(t, m, i)
  }

  /** `t` with every non-overlapping occurrence of `m`, found left to right,
      replaced by `s`. Each replacement changes the length by `|s| - |m|`, and
      the text comes back unchanged exactly when `m` does not occur in it or
      `s` is `m` itself. */
  function ReplaceAll(t: string, m: string, s: string): (r: string)
    requires |m| > 0
    ensures |r| == |t| + CountOcc(t, m) * (|s| - |m|)
    ensures r == t <==> !Contains(t, m) || s == m
    decreases |t|
  {
    if |t| < |m| then t
    else if t[..|m|] == m then
      var rest := t[|m|..];
      var r := s + ReplaceAll(rest, m, s);
      assert OccursAt(t, m, 0);
      assert t == m + rest;
      assert r[..|s|] == s;
      Distribute(CountOcc(rest, m), |s| - |m|);
      assert |s| != |m| ==> |r| != |t| by {
        if |s| != |m| {
          GrowthNonZero(CountOcc(rest, m), |s| - |m|);
        }
      }
      r
    else
      var r := [t[0]] + ReplaceAll(t[1..], m, s);
      ContainsStep(t, m);
      assert t == [t[0]] + t[1..];
      assert r[1..] == ReplaceAll(t[1..], m, s);
      r
  }

  /** The number of occurrences of `m` that the same left-to-right scan finds:
      zero exactly when `m` occurs nowhere in `t`. */
  function CountOcc(t: string, m: string): (n: nat)
    requires |m| > 0
    ensures n == 0 <==> !Contains(t, m)
    decreases |t|
  {
    if |t| < |m| then 0
    else if t[..|m|] == m then
      assert OccursAt(t, m, 0);
      1 + CountOcc(t[|m|..], m)
    else
      ContainsStep(t, m);
      CountOcc(t[1..], m)
  }

  /** The pieces of `t` between the occurrences of `m` that the scan finds:
      there is always one piece more than there are occurrences, and the
      first piece is a prefix of `t`. */
  function Split(t: string, m: string): (pieces: seq<string>)
    requires |m| > 0
    ensures |pieces| == CountOcc(t, m) + 1
    ensures pieces[0] <= t
    decreases |t|
  {
    if |t| < |m| then [t]
    else if t[..|m|] == m then [[]] + Split(t[|m|..], m)
    else
      var rest := Split(t[1..], m);
      [[t[0]] + rest[0]] + rest[1..]
  }

  /** The pieces concatenated with `sep` between each two neighbours. */
  function Join(pieces: seq<string>, sep: string): string
    decreases |pieces|
  {
    if |pieces| == 0 then []
    else if |pieces| == 1 then pieces[0]
    else pieces[0] + sep + Join(pieces[1..], sep)
  }

  /** When the scan does not match at the head of `t`, an occurrence in `t`
      is exactly an occurrence in `t[1..]`. */
  lemma ContainsStep(t: string, m: string)
    requires |m| > 0 && |t| >= |m| && t[..|m|] != m
    ensures Contains(t, m) <==> Contains(t[1..], m)
  {
    if Contains(t, m) {
      var i: nat :| OccursAt(t, m, i);
      assert t[0..|m|] == t[..|m|];
      assert i != 0;
      assert t[1..][i - 1..i - 1 + |m|] == t[i..i + |m|];
      assert OccursAt(t[1..], m, i - 1);
    }
    if Contains(t[1..], m) {
      var j: nat :| OccursAt(t[1..], m, j);
      assert t[1..][j..j + |m|] == t[j + 1..j + 1 + |m|];
      assert OccursAt(t, m, j + 1);
    }
  }

  /** Growing by `d` once and then `n` more times is growing `n + 1` times. */
  lemma Distribute(n: int, d: int)
    ensures (1 + n) * d == d + n * d
  {
  }

  /** Growing by `d` once and then `n` more times is growth by a non-zero
      amount when `d` is non-zero. */
  lemma GrowthNonZero(n: nat, d: int)
    requires d != 0
    ensures d + n * d != 0
  {
  }

  /** Prepending to the first piece prepends to the joined text. */
  lemma JoinConsHead(c: string, pieces: seq<string>, sep: string)
    requires |pieces| > 0
    ensures Join([c + pieces[0]] + pieces[1..], sep) == c + Join(pieces, sep)
  {
  }

  /** The replacement is the pieces between the occurrences joined by the
      replacement text. */
  lemma {:induction false} ReplaceIsJoinOfSplit(t: string, m: string, s: string)
    requires |m| > 0
    ensures ReplaceAll(t, m, s) == Join(Split(t, m), s)
    decreases |t|
  {
    if |t| < |m| {
    } else if t[..|m|] == m {
      var pieces := Split(t[|m|..], m);
      ReplaceIsJoinOfSplit(t[|m|..], m, s);
      assert ReplaceAll(t, m, s) == s + ReplaceAll(t[|m|..], m, s);
      assert Split(t, m) == [[]] + pieces;
      assert ([[]] + pieces)[1..] == pieces;
      assert Join([[]] + pieces, s) == [] + s + Join(pieces, s);
    } else {
      var pieces := Split(t[1..], m);
      ReplaceIsJoinOfSplit(t[1..], m, s);
      assert ReplaceAll(t, m, s) == [t[0]] + ReplaceAll(t[1..], m, s);
      assert Split(t, m) == [[t[0]] + pieces[0]] + pieces[1..];
      JoinConsHead([t[0]], pieces, s);
    }
  }

  /** Replacing by the empty text deletes every occurrence the scan finds. */
  lemma DeleteAll(t: string, m: string)
    requires |m| > 0
    ensures ReplaceAll(t, m, []) == Join(Split(t, m), [])
    ensures |ReplaceAll(t, m, [])| == |t| - CountOcc(t, m) * |m|
  {
    ShrinkBy(CountOcc(t, m), |m|);
    ReplaceIsJoinOfSplit(t, m, []);
  }

  /** Growing `n` times by `-k` is shrinking by `n * k`. */
  lemma ShrinkBy(n: int, k: int)
    ensures n * (0 - k) == - (n * k)
  {
  }

  /** The pieces joined by the marker give the text back. */
  lemma {:induction false} SplitJoin(t: string, m: string)
    requires |m| > 0
    ensures Join(Split(t, m), m) == t
  {
    ReplaceIsJoinOfSplit(t, m, m);
  }

  /** No piece contains the marker: every occurrence the left-to-right scan
      finds is replaced, and no piece holds a further occurrence. An
      occurrence that overlaps a found one can still straddle two pieces;
      `ScanFindsEveryOccurrence` rules that out for a marker that cannot
      overlap itself. */
  lemma {:induction false} SplitPiecesMarkerFree(t: string, m: string)
    requires |m| > 0
    ensures forall k :: 0 <= k < |Split(t, m)| ==> !Contains(Split(t, m)[k], m)
    decreases |t|
  {
    var pieces := Split(t, m);
    if |t| < |m| {
    } else if t[..|m|] == m {
      var rest := Split(t[|m|..], m);
      SplitPiecesMarkerFree(t[|m|..], m);
      forall k | 0 <= k < |pieces| ensures !Contains(pieces[k], m) {
        if k > 0 {
          assert pieces[k] == rest[k - 1];
        }
      }
    } else {
      var rest := Split(t[1..], m);
      SplitPiecesMarkerFree(t[1..], m);
      forall k | 0 <= k < |pieces| ensures !Contains(pieces[k], m) {
        if k == 0 {
          var first := [t[0]] + rest[0];
          assert first == pieces[0];
          if |first| >= |m| {
            assert first[..|m|] == t[..|m|];
            ContainsStep(first, m);
            assert first[1..] == rest[0];
          }
        } else {
          assert pieces[k] == rest[k];
        }
      }
    }
  }

  /** No two occurrences of `m` can overlap: no proper suffix of `m` is also
      a prefix of it. */
  ghost predicate SelfOverlapFree(m: string) {
    forall k :: 0 < k < |m| ==> m[k..] != m[..|m| - k]
  }

  /** Every position moved `d` further on. */
  function Shift(ps: seq<nat>, d: nat): (qs: seq<nat>)
    ensures |qs| == |ps|
    ensures forall j :: 0 <= j < |qs| ==> qs[j] == ps[j] + d
  {
    seq(|ps|, j requires 0 <= j < |ps| => ps[j] + d)
  }

  /** The positions at which the left-to-right scan finds `m` in `t`, one for
      each occurrence it replaces. */
  ghost function Found(t: string, m: string): (ps: seq<nat>)
    requires |m| > 0
    ensures |ps| == CountOcc(t, m)
    decreases |t|
  {
    if |t| < |m| then []
    else if t[..|m|] == m then [0] + Shift(Found(t[|m|..], m), |m|)
    else Shift(Found(t[1..], m), 1)
  }

  /** Every position the scan finds is an occurrence of `m`. */
  lemma {:induction false} FoundAreOccurrences(t: string, m: string)
    requires |m| > 0
    ensures forall j :: 0 <= j < |Found(t, m)| ==> OccursAt(t, m, Found(t, m)[j])
    decreases |t|
  {
    var ps := Found(t, m);
    if |t| < |m| {
    } else if t[..|m|] == m {
      var rest := t[|m|..];
      var qs := Found(rest, m);
      FoundAreOccurrences(rest, m);
      assert ps == [0] + Shift(qs, |m|);
      forall j | 0 <= j < |ps| ensures OccursAt(t, m, ps[j]) {
        if j == 0 {
          assert t[0..|m|] == t[..|m|];
        } else {
          OccurrenceShift(t, m, |m|, qs[j - 1]);
        }
      }
    } else {
      var rest := t[1..];
      var qs := Found(rest, m);
      FoundAreOccurrences(rest, m);
      assert ps == Shift(qs, 1);
      forall j | 0 <= j < |ps| ensures OccursAt(t, m, ps[j]) {
        OccurrenceShift(t, m, 1, qs[j]);
      }
    }
  }

  /** An occurrence in a suffix of `t` is an occurrence in `t`, `d` further
      on, and the other way round. */
  lemma OccurrenceShift(t: string, m: string, d: nat, i: nat)
    requires d <= |t|
    ensures OccursAt(t[d..], m, i) <==> OccursAt(t, m, i + d)
  {
  }

  /** For a marker that cannot overlap itself, the scan finds every
      occurrence: the found positions are exactly the occurrences, so every
      occurrence in the text is replaced. */
  lemma ScanFindsEveryOccurrence(t: string, m: string)
    requires |m| > 0 && SelfOverlapFree(m)
    ensures forall j :: 0 <= j < |Found(t, m)| ==> OccursAt(t, m, Found(t, m)[j])
    ensures forall i :: OccursAt(t, m, i) ==> i in Found(t, m)
  {
    FoundAreOccurrences(t, m);
    forall i | OccursAt(t, m, i) ensures i in Found(t, m) {
      var j := OccurrenceFound(t, m, i);
    }
  }

  /** The place among the found positions of one occurrence of a
      self-overlap-free marker. */
  lemma {:induction false} OccurrenceFound(t: string, m: string, i: nat) returns (j: nat)
    requires |m| > 0 && SelfOverlapFree(m) && OccursAt(t, m, i)
    ensures j < |Found(t, m)| && Found(t, m)[j] == i
    decreases |t|
  {
    var ps := Found(t, m);
    if t[..|m|] == m {
      var rest := t[|m|..];
      var qs := Found(rest, m);
      assert ps == [0] + Shift(qs, |m|);
      if i == 0 {
        j := 0;
      } else if i < |m| {
        OverlapAt(t, m, i);
        assert false;
      } else {
        OccurrenceShift(t, m, |m|, i - |m|);
        var k := OccurrenceFound(rest, m, i - |m|);
        j := k + 1;
      }
    } else {
      assert t[0..|m|] == t[..|m|];
      var rest := t[1..];
      var qs := Found(rest, m);
      assert ps == Shift(qs, 1);
      OccurrenceShift(t, m, 1, i - 1);
      j := OccurrenceFound(rest, m, i - 1);
    }
  }

  /** Two occurrences of `m`, at 0 and at `i` within the first, make a
      proper suffix of `m` equal to a prefix of it. */
  lemma OverlapAt(t: string, m: string, i: nat)
    requires OccursAt(t, m, 0) && OccursAt(t, m, i) && 0 < i < |m|
    ensures m[i..] == m[..|m| - i]
  {
  }

  /** A marker that overlaps itself: in "aaa" the scan finds "aa" only at
      index 0, and the occurrence at index 1 is left in place. */
  lemma OverlappingOccurrenceMissed()
    ensures !SelfOverlapFree("aa")
    ensures OccursAt("aaa", "aa", 1) && Found("aaa", "aa") == [0]
    ensures ReplaceAll("aaa", "aa", "X") == "Xa"
  {
  }
}
