/** The Python string operations the generator relies on: slicing with
    clamped bounds, `str.split(sep)`, `sep.join(parts)` and
    `str.replace(old, '')`, with the facts about them the pipeline needs. */
module Text {
  import opened Common

  /** `s[i:j]` for non-negative bounds: Python clamps both bounds to the
      length and yields the empty string when they cross. */
  function Slice(s: string, i: nat, j: nat): (r: string)
    ensures i <= j <= |s| ==> r == s[i..j]
    ensures i <= |s| <= j ==> r == s[i..]
    ensures |s| <= i || j <= i ==> r == []
    ensures |r| <= |s|
  {
    var lo := if i < |s| then i else |s|;
    var hi := if j < |s| then j else |s|;
    if lo <= hi then s[lo..hi] else []
  }

  /** `s[i:]` */
  function SliceFrom(s: string, i: nat): (r: string)
    ensures i <= |s| ==> r == s[i..]
    ensures |s| <= i ==> r == []
  {
    Slice(s, i, |s|)
  }

  /** `s[:j]` */
  function SliceTo(s: string, j: nat): (r: string)
    ensures j <= |s| ==> r == s[..j]
    ensures |s| <= j ==> r == s
  {
    Slice(s, 0, j)
  }

  predicate OccursAt(s: string, p: string, i: int) {
    0 <= i && i + |p| <= |s| && s[i..i + |p|] == p
  }

  ghost predicate Contains(s: string, p: string) {
    exists i :: OccursAt(s, p, i)
  }

  /** No proper suffix of `p` can start a new occurrence of `p`: its first
      character does not occur again.  Holds of every separator used here. */
  ghost predicate Unbordered(p: string) {
    forall k :: 0 < k < |p| ==> p[k] != p[0]
  }

  /** The first occurrence of `p` in `s` at or after `from`. */
  function Find(s: string, p: string, from: nat): (r: Option<nat>)
    requires from <= |s|
    ensures r.Some? ==> from <= r.value && OccursAt(s, p, r.value)
    ensures r.Some? ==> forall j :: from <= j < r.value ==> !OccursAt(s, p, j)
    ensures r.None? ==> forall j :: from <= j ==> !OccursAt(s, p, j)
    decreases |s| - from
  {
    if from + |p| > |s| then None
    else if OccursAt(s, p, from) then Some(from)
    else Find(s, p, from + 1)
  }

  /** `s.split(p)` for a non-empty separator: the pieces between successive
      non-overlapping occurrences, scanned left to right. */
  function Split(s: string, p: string): (r: seq<string>)
    requires |p| > 0
    ensures |r| >= 1
    decreases |s|
  {
    match Find(s, p, 0)
    case None => [s]
    case Some(k) => [s[..k]] + Split(s[k + |p|..], p)
  }

  /** No piece of a split contains the separator, and the split has a single
      piece exactly when the separator does not occur. */
  lemma {:induction false} SplitPieces(s: string, p: string)
    requires |p| > 0
    ensures forall i :: 0 <= i < |Split(s, p)| ==> !Contains(Split(s, p)[i], p)
    ensures |Split(s, p)| == 1 <==> !Contains(s, p)
    decreases |s|
  {
    var f := Find(s, p, 0);
    if f.Some? {
      var k := f.value;
      var rest := s[k + |p|..];
      BeforeFirst(s, p, k);
      SplitPieces(rest, p);
      SplitAt(s, p, k);
      var r := Split(s, p);
      forall i | 0 <= i < |r| ensures !Contains(r[i], p) {
        if i > 0 { assert r[i] == Split(rest, p)[i - 1]; }
      }
    }
  }

  /** The text before the first occurrence holds no occurrence. */
  lemma BeforeFirst(s: string, p: string, k: nat)
    requires |p| > 0 && k <= |s|
    requires forall j :: 0 <= j < k ==> !OccursAt(s, p, j)
    ensures !Contains(s[..k], p)
  {
    forall j | OccursAt(s[..k], p, j) ensures false {
      assert s[j..j + |p|] == s[..k][j..j + |p|];
      assert OccursAt(s, p, j);
    }
  }

  /** `sep.join(parts)` */
  function Join(parts: seq<string>, sep: string): string {
    if |parts| == 0 then ""
    else if |parts| == 1 then parts[0]
    else parts[0] + sep + Join(parts[1..], sep)
  }

  function SumLengths(parts: seq<string>): nat {
    if parts == [] then 0 else |parts[0]| + SumLengths(parts[1..])
  }

  /** Joining the pieces of a split with the same separator gives back the
      original string. */
  lemma {:induction false} JoinSplit(s: string, p: string)
    requires |p| > 0
    ensures Join(Split(s, p), p) == s
    decreases |s|
  {
    var f := Find(s, p, 0);
    if f.Some? {
      var k := f.value;
      var rest := s[k + |p|..];
      JoinSplit(rest, p);
      SplitAt(s, p, k);
      JoinCons(s[..k], Split(rest, p), p);
      assert s == s[..k] + p + rest;
    }
  }

  /** One step of a split: the piece before the first occurrence, then the
      split of the remainder. */
  lemma SplitAt(s: string, p: string, k: nat)
    requires |p| > 0 && Find(s, p, 0) == Some(k)
    ensures Split(s, p) == [s[..k]] + Split(s[k + |p|..], p)
  {
  }

  lemma JoinCons(a: string, ys: seq<string>, sep: string)
    requires |ys| >= 1
    ensures Join([a] + ys, sep) == a + sep + Join(ys, sep)
  {
    assert ([a] + ys)[1..] == ys;
  }

  /** A string made of a piece free of `p`, then `p`, then anything splits
      at that occurrence of `p` first. */
  lemma {:induction false} SplitConcat(a: string, p: string, b: string)
    requires |p| > 0 && Unbordered(p) && !Contains(a, p)
    ensures Split(a + p + b, p) == [a] + Split(b, p)
  {
    var s := a + p + b;
    assert OccursAt(s, p, |a|) by {
      assert s[|a|..|a| + |p|] == p;
    }
    forall j | 0 <= j < |a| ensures !OccursAt(s, p, j) {
      if j + |p| <= |a| {
        assert a[j..j + |p|] == s[j..j + |p|];
        assert !OccursAt(a, p, j);
      } else if j + |p| <= |s| {
        var k := |a| - j;
        assert s[j..j + |p|][k] == s[|a|] == p[0] != p[k];
      }
    }
    var f := Find(s, p, 0);
    assert f == Some(|a|);
    assert s[..|a|] == a;
    assert s[|a| + |p|..] == b;
  }

  /** Splitting a join recovers the parts, provided no part contains the
      separator and the separator cannot overlap itself. */
  lemma {:induction false} SplitJoin(parts: seq<string>, p: string)
    requires |p| > 0 && Unbordered(p) && |parts| >= 1
    requires forall i :: 0 <= i < |parts| ==> !Contains(parts[i], p)
    ensures Split(Join(parts, p), p) == parts
  {
    if |parts| == 1 {
      SplitPieces(parts[0], p);
      JoinSplit(parts[0], p);
    } else {
      SplitConcat(parts[0], p, Join(parts[1..], p));
      SplitJoin(parts[1..], p);
      assert parts == [parts[0]] + parts[1..];
    }
  }

  lemma {:induction false} SumLengthsConcat(a: seq<string>, b: seq<string>)
    ensures SumLengths(a + b) == SumLengths(a) + SumLengths(b)
  {
    if a == [] {
      assert a + b == b;
    } else {
      assert (a + b)[1..] == a[1..] + b;
      SumLengthsConcat(a[1..], b);
    }
  }

  /** The joined text is the parts plus one separator between each pair. */
  lemma {:induction false} JoinLength(parts: seq<string>, sep: string)
    requires |parts| >= 1
    ensures |Join(parts, sep)| == SumLengths(parts) + (|parts| - 1) * |sep|
  {
    if |parts| > 1 {
      JoinLength(parts[1..], sep);
      assert (|parts| - 1) * |sep| == (|parts| - 2) * |sep| + |sep|;
    }
  }

  /** A one-character pattern occurs exactly when the character does. */
  lemma ContainsChar(s: string, c: char)
    ensures Contains(s, [c]) <==> c in s
  {
    if c in s {
      var i :| 0 <= i < |s| && s[i] == c;
      assert s[i..i + 1] == [c];
      assert OccursAt(s, [c], i);
    }
    if Contains(s, [c]) {
      var i :| OccursAt(s, [c], i);
      assert s[i] == s[i..i + 1][0];
    }
  }

  /** A pattern whose first character is absent does not occur. */
  lemma LeadAbsent(s: string, p: string)
    requires |p| > 0 && p[0] !in s
    ensures !Contains(s, p)
  {
    forall i ensures !OccursAt(s, p, i) {
      if 0 <= i && i + |p| <= |s| {
        assert s[i..i + |p|][0] == s[i];
      }
    }
  }

  /** Without an occurrence of the separator, the split is the whole text. */
  lemma SplitAbsent(s: string, p: string)
    requires |p| > 0 && !Contains(s, p)
    ensures Split(s, p) == [s]
  {
    SplitPieces(s, p);
    JoinSplit(s, p);
  }

  /** `s.replace(p, '')`: every non-overlapping occurrence of `p`, left to
      right, is deleted. */
  function RemoveAll(s: string, p: string): string
    requires |p| > 0
  {
    Join(Split(s, p), "")
  }

  /** Removal leaves the string unchanged exactly when the pattern does not
      occur in it; otherwise it gets shorter. */
  lemma RemoveAllUnchanged(s: string, p: string)
    requires |p| > 0
    ensures |RemoveAll(s, p)| <= |s|
    ensures RemoveAll(s, p) == s <==> !Contains(s, p)
  {
    var pieces := Split(s, p);
    SplitPieces(s, p);
    JoinSplit(s, p);
    if |pieces| == 1 {
      assert RemoveAll(s, p) == pieces[0] == s;
    } else {
      JoinDropSeparator(pieces, p);
    }
  }

  /** Joining two or more parts with a separator is longer, by at least the
      separator, than joining them with nothing. */
  lemma {:induction false} JoinDropSeparator(parts: seq<string>, sep: string)
    requires |parts| >= 2
    ensures |Join(parts, sep)| >= |Join(parts, "")| + |sep|
  {
    if |parts| > 2 {
      JoinDropSeparator(parts[1..], sep);
    }
  }

  /** Removing a pattern from a stem followed by that pattern leaves the stem. */
  lemma RemoveAllSuffix(stem: string, p: string)
    requires |p| > 0 && Unbordered(p) && !Contains(stem, p)
    ensures RemoveAll(stem + p, p) == stem
  {
    SplitConcat(stem, p, "");
    assert stem + p + "" == stem + p;
    assert Split("", p) == [""];
    assert Split(stem + p, p) == [stem, ""];
    JoinCons(stem, [""], "");
  }
}
