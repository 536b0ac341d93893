/**
 The Python `str` built-ins the suffix engine is written with: `find`, `split`,
 `join`, `replace(old, "")`, `strip`/`lstrip`/`rstrip` and `lower`, each stated
 once and characterised by its contract.
 */
module PyStr {
  import opened Wrappers

  /** A separator for `split`: Python raises ValueError on an empty one. */
  type Separator = s: string | |s| > 0 witness "."

  predicate IsPrefix(p: string, s: string) {
    |p| <= |s| && s[..|p|] == p
  }

  predicate IsSuffix(p: string, s: string) {
    |p| <= |s| && s[|s| - |p|..] == p
  }

  /** `pat` occurs in `s` starting at index `i`. */
  predicate OccursAt(s: string, pat: string, i: int) {
    0 <= i && i + |pat| <= |s| && s[i..i + |pat|] == pat
  }

  /** Python's `pat in s`. */
  ghost predicate Contains(s: string, pat: string) {
    exists i :: OccursAt(s, pat, i)
  }

  /** An occurrence inside a slice is an occurrence in the whole string. */
  lemma OccursInSlice(s: string, lo: int, hi: int, pat: string, j: int)
    requires 0 <= lo <= hi <= |s|
    requires OccursAt(s[lo..hi], pat, j)
    ensures OccursAt(s, pat, lo + j)
  {
    var t := s[lo..hi];
    assert t[j..j + |pat|] == pat;
    assert forall k :: 0 <= k < |pat| ==> pat[k] == t[j + k] == s[lo + j + k];
    assert s[lo + j..lo + j + |pat|] == pat;
  }

  /** A one-character pattern occurs exactly when the character is in the string. */
  lemma CharContains(s: string, c: char)
    ensures Contains(s, [c]) <==> c in s
  {
    if c in s {
      var i :| 0 <= i < |s| && s[i] == c;
      assert OccursAt(s, [c], i);
    }
    if Contains(s, [c]) {
      var i :| OccursAt(s, [c], i);
      assert s[i] == s[i..i + 1][0] == c;
    }
  }

  /** An occurrence of an occurrence is an occurrence. */
  lemma OccursTrans(a: string, b: string, c: string, i: int, j: int)
    requires OccursAt(a, b, i) && OccursAt(b, c, j)
    ensures OccursAt(a, c, i + j)
  {
    OccursInSlice(a, i, i + |b|, c, j);
  }

  /** A slice of a string that does not contain `pat` does not contain it either. */
  lemma NotContainsSlice(s: string, lo: int, hi: int, pat: string)
    requires 0 <= lo <= hi <= |s|
    requires !Contains(s, pat)
    ensures !Contains(s[lo..hi], pat)
  {
    forall j | OccursAt(s[lo..hi], pat, j)
      ensures false
    {
      OccursInSlice(s, lo, hi, pat, j);
    }
  }

  /** Python's `s.find(pat, i)`: the first index at or after `i` where `pat` occurs. */
  function FindFrom(s: string, pat: string, i: nat): (r: Option<nat>)
    ensures r.Some? ==> i <= r.value && OccursAt(s, pat, r.value)
    ensures r.Some? ==> forall j :: i <= j < r.value ==> !OccursAt(s, pat, j)
    ensures r.None? ==> forall j :: i <= j ==> !OccursAt(s, pat, j)
    decreases |s| - i
  {
    if i + |pat| > |s| then None
    else if OccursAt(s, pat, i) then Some(i)
    else FindFrom(s, pat, i + 1)
  }

  /** Python's `s.find(pat)`, with None for -1. */
  function Find(s: string, pat: string): (r: Option<nat>)
    ensures r.None? ==> forall j :: !OccursAt(s, pat, j)
    ensures r.Some? ==> OccursAt(s, pat, r.value) && forall j :: 0 <= j < r.value ==> !OccursAt(s, pat, j)
  {
    FindFrom(s, pat, 0)
  }

  /** `find` succeeds exactly when the pattern occurs. */
  lemma FindContains(s: string, pat: string)
    ensures Find(s, pat).Some? <==> Contains(s, pat)
  {
    if Find(s, pat).Some? {
      assert OccursAt(s, pat, Find(s, pat).value);
    }
  }

  /** Python's `s.rfind(pat, 0, n + |pat|)`: the last index at or before `n` where `pat` occurs. */
  function RFindUpTo(s: string, pat: string, n: nat): (r: Option<nat>)
    ensures r.Some? ==> r.value <= n && OccursAt(s, pat, r.value)
    ensures r.Some? ==> forall j :: r.value < j <= n ==> !OccursAt(s, pat, j)
    ensures r.None? ==> forall j :: 0 <= j <= n ==> !OccursAt(s, pat, j)
  {
    if OccursAt(s, pat, n) then Some(n)
    else if n == 0 then None
    else RFindUpTo(s, pat, n - 1)
  }

  /** Python's `s.rfind(pat)`, with None for -1. */
  function RFind(s: string, pat: string): (r: Option<nat>)
    ensures r.None? ==> forall j :: !OccursAt(s, pat, j)
    ensures r.Some? ==> OccursAt(s, pat, r.value) && forall j :: r.value < j ==> !OccursAt(s, pat, j)
  {
    RFindUpTo(s, pat, |s|)
  }

  /** Python's `s.split(sep)` for a non-empty separator. */
  function Split(s: string, sep: Separator): (r: seq<string>)
    ensures |r| >= 1
    decreases |s|
  {
    match Find(s, sep)
    case None => [s]
    case Some(i) => [s[..i]] + Split(s[i + |sep|..], sep)
  }

  /** Python's `sep.join(parts)`. */
  function Join(sep: string, parts: seq<string>): (r: string)
    ensures parts == [] ==> r == []
    ensures |parts| == 1 ==> r == parts[0]
  {
    if |parts| == 0 then []
    else if |parts| == 1 then parts[0]
    else parts[0] + sep + Join(sep, parts[1..])
  }

  /** A split yields a single piece exactly when the separator does not occur. */
  lemma SplitSingle(s: string, sep: Separator)
    ensures |Split(s, sep)| == 1 <==> !Contains(s, sep)
  {
    FindContains(s, sep);
    match Find(s, sep)
    case None =>
    case Some(i) =>
      assert |Split(s, sep)| == 1 + |Split(s[i + |sep|..], sep)|;
  }

  /** Splitting and joining again gives back the string. */
  lemma {:induction false} JoinSplit(s: string, sep: Separator)
    ensures Join(sep, Split(s, sep)) == s
    decreases |s|
  {
    match Find(s, sep)
    case None =>
    case Some(i) =>
      var rest := s[i + |sep|..];
      var pieces := Split(rest, sep);
      JoinSplit(rest, sep);
      assert Split(s, sep) == [s[..i]] + pieces;
      assert ([s[..i]] + pieces)[1..] == pieces;
      assert Join(sep, [s[..i]] + pieces) == s[..i] + sep + Join(sep, pieces);
      assert s[i..i + |sep|] == sep;
      assert s == s[..i] + sep + rest;
  }

  /** Joining with one more part appends the separator and that part. */
  lemma {:induction false} JoinSnoc(sep: string, parts: seq<string>, p: string)
    requires |parts| >= 1
    ensures Join(sep, parts + [p]) == Join(sep, parts) + sep + p
    decreases |parts|
  {
    if |parts| > 1 {
      JoinSnoc(sep, parts[1..], p);
      assert (parts + [p])[1..] == parts[1..] + [p];
    }
  }

  /** No piece of a split contains the separator. */
  lemma {:induction false} SplitPiecesAvoidSeparator(s: string, sep: Separator, k: nat)
    requires k < |Split(s, sep)|
    ensures !Contains(Split(s, sep)[k], sep)
    decreases |s|
  {
    match Find(s, sep)
    case None =>
    case Some(i) =>
      if k == 0 {
        forall j | OccursAt(s[..i], sep, j)
          ensures false
        {
          OccursInSlice(s, 0, i, sep, j);
        }
      } else {
        SplitPiecesAvoidSeparator(s[i + |sep|..], sep, k - 1);
      }
  }

  /** Every piece of a split occurs in the string that was split, at the returned offset. */
  lemma {:induction false} SplitPiecesOccur(s: string, sep: Separator, k: nat) returns (lo: nat)
    requires k < |Split(s, sep)|
    ensures OccursAt(s, Split(s, sep)[k], lo)
    decreases |s|
  {
    match Find(s, sep)
    case None =>
      assert Split(s, sep) == [s];
      assert s[0..|s|] == s;
      lo := 0;
    case Some(i) =>
      var start := i + |sep|;
      var rest := s[start..];
      var pieces := Split(rest, sep);
      assert Split(s, sep) == [s[..i]] + pieces;
      if k == 0 {
        assert s[0..i] == s[..i];
        lo := 0;
      } else {
        var j := SplitPiecesOccur(rest, sep, k - 1);
        assert Split(s, sep)[k] == pieces[k - 1];
        assert s[start..|s|] == rest;
        OccursInSlice(s, start, |s|, pieces[k - 1], j);
        lo := start + j;
      }
  }

  /** The first piece of a split is a prefix of the string. */
  lemma SplitFirstIsPrefix(s: string, sep: Separator)
    ensures IsPrefix(Split(s, sep)[0], s)
    ensures Find(s, sep).Some? ==> Split(s, sep)[0] == s[..Find(s, sep).value]
  {
  }

  /** Python's `s.replace(pat, "")`: scanning from the left, each occurrence of `pat` is cut and the scan resumes after it. */
  function RemoveAll(s: string, pat: string): (r: string)
    ensures |r| <= |s|
    decreases |s|
  {
    if pat == [] || s == [] then s
    else if IsPrefix(pat, s) then RemoveAll(s[|pat|..], pat)
    else [s[0]] + RemoveAll(s[1..], pat)
  }

  /** An occurrence past `lo` is an occurrence in `s[lo..]`. */
  lemma OccursInSuffix(s: string, lo: int, pat: string, j: int)
    requires 0 <= lo <= j && OccursAt(s, pat, j)
    ensures OccursAt(s[lo..], pat, j - lo)
  {
    var t := s[lo..];
    assert forall k :: 0 <= k < |pat| ==> t[j - lo + k] == s[j + k] == pat[k];
    assert t[j - lo..j - lo + |pat|] == pat;
  }

  /** An occurrence in `s[1..]` is an occurrence in `s`, one place later. */
  lemma OccursPastFirst(s: string, pat: string, i: int)
    requires s != [] && OccursAt(s[1..], pat, i)
    ensures OccursAt(s, pat, i + 1)
  {
    assert s[1..][i..i + |pat|] == s[i + 1..i + 1 + |pat|];
  }

  /** Each occurrence `replace` meets removes the whole pattern: one occurrence shortens the string by at least its length. */
  lemma {:induction false} RemoveAllShrinks(s: string, pat: string, i: int)
    requires pat != [] && OccursAt(s, pat, i)
    ensures |RemoveAll(s, pat)| <= |s| - |pat|
    decreases i
  {
    if !IsPrefix(pat, s) {
      assert i != 0;
      OccursInSuffix(s, 1, pat, i);
      RemoveAllShrinks(s[1..], pat, i - 1);
    }
  }

  /** Two occurrences that do not overlap both go. */
  lemma {:induction false} RemoveAllShrinksTwice(s: string, pat: string, i: int, j: int)
    requires pat != [] && OccursAt(s, pat, i) && OccursAt(s, pat, j) && i + |pat| <= j
    ensures |RemoveAll(s, pat)| <= |s| - 2 * |pat|
    decreases i
  {
    if IsPrefix(pat, s) {
      OccursInSuffix(s, |pat|, pat, j);
      RemoveAllShrinks(s[|pat|..], pat, j - |pat|);
    } else {
      assert i != 0;
      OccursInSuffix(s, 1, pat, i);
      OccursInSuffix(s, 1, pat, j);
      RemoveAllShrinksTwice(s[1..], pat, i - 1, j - 1);
    }
  }

  /** When `pat` occurs in `s` only at its very end, `replace` cuts exactly that tail. */
  lemma {:induction false} RemoveAllOnlyAtTail(s: string, pat: string)
    requires pat != []
    requires IsSuffix(pat, s)
    requires forall i :: OccursAt(s, pat, i) ==> i == |s| - |pat|
    ensures RemoveAll(s, pat) == s[..|s| - |pat|]
    decreases |s|
  {
    if |s| == |pat| {
      assert IsPrefix(pat, s);
    } else {
      assert !OccursAt(s, pat, 0);
      var t := s[1..];
      forall i | OccursAt(t, pat, i)
        ensures i == |t| - |pat|
      {
        OccursPastFirst(s, pat, i);
      }
      assert IsSuffix(pat, t);
      RemoveAllOnlyAtTail(t, pat);
      assert RemoveAll(s, pat) == [s[0]] + t[..|t| - |pat|];
      assert s[..|s| - |pat|] == [s[0]] + t[..|t| - |pat|];
    }
  }

  /** Without an occurrence of `pat`, `replace` changes nothing. */
  lemma {:induction false} RemoveAllAbsent(s: string, pat: string)
    requires pat != [] && forall j :: !OccursAt(s, pat, j)
    ensures RemoveAll(s, pat) == s
    decreases |s|
  {
    if s != [] {
      assert !OccursAt(s, pat, 0);
      forall j | OccursAt(s[1..], pat, j)
        ensures false
      {
        OccursPastFirst(s, pat, j);
      }
      RemoveAllAbsent(s[1..], pat);
      assert s == [s[0]] + s[1..];
    }
  }

  /** Up to the first occurrence of `pat`, `replace` copies the string; that occurrence is cut and the scan resumes after it. */
  lemma {:induction false} RemoveAllAtFirst(s: string, pat: string, i: nat)
    requires pat != [] && OccursAt(s, pat, i)
    requires forall j :: 0 <= j < i ==> !OccursAt(s, pat, j)
    ensures RemoveAll(s, pat) == s[..i] + RemoveAll(s[i + |pat|..], pat)
    decreases i
  {
    if i == 0 {
      assert s[..|pat|] == s[0..|pat|];
      assert s[..0] == [];
    } else {
      var t := s[1..];
      var after := RemoveAll(s[i + |pat|..], pat);
      assert RemoveAll(t, pat) == t[..i - 1] + after by {
        FirstOccurrenceInTail(s, pat, i);
        RemoveAllAtFirst(t, pat, i - 1);
        assert t[i - 1 + |pat|..] == s[i + |pat|..];
      }
      RemoveAllSkipFirst(s, pat);
      ConsBeforeRest(s, i, RemoveAll(t, pat), after, RemoveAll(s, pat));
    }
  }

  /** The first character put in front of the next `i - 1` characters and a rest. */
  lemma ConsBeforeRest(s: string, i: nat, rt: string, after: string, rs: string)
    requires 0 < i <= |s|
    requires rs == [s[0]] + rt && rt == s[1..][..i - 1] + after
    ensures rs == s[..i] + after
  {
    assert s[..i] == [s[0]] + s[1..][..i - 1];
  }

  /** Without an occurrence at the head, `replace` keeps the first character. */
  lemma RemoveAllSkipFirst(s: string, pat: string)
    requires pat != [] && s != [] && !OccursAt(s, pat, 0)
    ensures RemoveAll(s, pat) == [s[0]] + RemoveAll(s[1..], pat)
  {
    assert !IsPrefix(pat, s) by {
      if |pat| <= |s| {
        assert s[..|pat|] == s[0..|pat|];
      }
    }
  }

  /** The first occurrence in `s`, past index 0, is one place earlier the first occurrence in `s[1..]`. */
  lemma FirstOccurrenceInTail(s: string, pat: string, i: nat)
    requires 0 < i && OccursAt(s, pat, i)
    requires forall j :: 0 <= j < i ==> !OccursAt(s, pat, j)
    ensures OccursAt(s[1..], pat, i - 1)
    ensures forall j :: 0 <= j < i - 1 ==> !OccursAt(s[1..], pat, j)
  {
    OccursInSuffix(s, 1, pat, i);
    forall j | 0 <= j < i - 1 && OccursAt(s[1..], pat, j)
      ensures false
    {
      OccursPastFirst(s, pat, j);
    }
  }

  /** `s.replace(pat, "") == "".join(s.split(pat))`: what is left is the pieces between the occurrences, in order. */
  lemma {:induction false} RemoveAllIsJoinOfSplit(s: string, pat: Separator)
    ensures RemoveAll(s, pat) == Join("", Split(s, pat))
    decreases |s|
  {
    match Find(s, pat)
    case None =>
      RemoveAllAbsent(s, pat);
    case Some(i) =>
      var rest := s[i + |pat|..];
      var pieces := Split(rest, pat);
      RemoveAllAtFirst(s, pat, i);
      RemoveAllIsJoinOfSplit(rest, pat);
      assert Split(s, pat) == [s[..i]] + pieces;
      assert ([s[..i]] + pieces)[1..] == pieces;
  }

  /** `replace(pat, "")` on the pattern itself leaves nothing. */
  lemma RemoveAllSelf(pat: string)
    ensures RemoveAll(pat, pat) == []
  {
    if pat != [] {
      assert IsPrefix(pat, pat);
    }
  }

  /** `s[:i] + s[i + len(pat):]` for `i = s.rfind(pat)`: the last occurrence of `pat` is cut, `s` is kept when there is none. */
  function RemoveLast(s: string, pat: string): (r: string)
    ensures RFind(s, pat).None? ==> r == s
    ensures RFind(s, pat).Some? ==> |r| == |s| - |pat|
  {
    match RFind(s, pat)
    case None => s
    case Some(i) => s[..i] + s[i + |pat|..]
  }

  /** A string that ends in `pat` loses exactly that tail. */
  lemma RemoveLastAtTail(s: string, pat: string)
    ensures IsSuffix(pat, s) ==> RemoveLast(s, pat) == s[..|s| - |pat|]
  {
    if IsSuffix(pat, s) {
      var n := |s| - |pat|;
      assert OccursAt(s, pat, n);
      var i := RFind(s, pat).value;
      assert i == n;
      assert s[i + |pat|..] == [];
    }
  }

  /** Python's `s.rstrip(chars)`: drops the longest run of trailing characters satisfying `drop`. */
  function RStrip(s: string, drop: char -> bool): (r: string)
    ensures IsPrefix(r, s)
    ensures r == [] || !drop(r[|r| - 1])
    ensures forall i :: |r| <= i < |s| ==> drop(s[i])
    decreases |s|
  {
    if s != [] && drop(s[|s| - 1]) then RStrip(s[..|s| - 1], drop) else s
  }

  /** Python's `s.lstrip(chars)`: drops the longest run of leading characters satisfying `drop`. */
  function LStrip(s: string, drop: char -> bool): (r: string)
    ensures IsSuffix(r, s)
    ensures r == [] || !drop(r[0])
    ensures forall i :: 0 <= i < |s| - |r| ==> drop(s[i])
    decreases |s|
  {
    if s != [] && drop(s[0]) then LStrip(s[1..], drop) else s
  }

  /** Python's `s.strip(chars)`: the longest slice of `s` with neither end satisfying `drop`. */
  function Strip(s: string, drop: char -> bool): (r: string)
    ensures r == [] || (!drop(r[0]) && !drop(r[|r| - 1]))
    ensures OccursAt(s, r, |RStrip(s, drop)| - |r|)
    ensures forall i :: 0 <= i < |RStrip(s, drop)| - |r| ==> drop(s[i])
  {
    var t := RStrip(s, drop);
    var r := LStrip(t, drop);
    StripFacts(s, t, r, drop);
    r
  }

  lemma StripFacts(s: string, t: string, r: string, drop: char -> bool)
    requires IsPrefix(t, s) && (t == [] || !drop(t[|t| - 1]))
    requires IsSuffix(r, t) && (r == [] || !drop(r[0]))
    requires forall i :: 0 <= i < |t| - |r| ==> drop(t[i])
    ensures r == [] || (!drop(r[0]) && !drop(r[|r| - 1]))
    ensures OccursAt(s, r, |t| - |r|)
    ensures forall i :: 0 <= i < |t| - |r| ==> drop(s[i])
  {
    var n := |t| - |r|;
    assert t[n..] == r;
    if r != [] {
      assert r[|r| - 1] == t[|t| - 1];
    }
    assert s[n..|t|] == t[n..];
    assert forall i :: 0 <= i < n ==> s[i] == t[i];
  }

  /** Stripping a string whose ends are already kept leaves it unchanged. */
  lemma StripKeeps(s: string, drop: char -> bool)
    requires s == [] || (!drop(s[0]) && !drop(s[|s| - 1]))
    ensures Strip(s, drop) == s
  {
  }

  /** A droppable character appended at the end disappears under `rstrip`. */
  lemma RStripSnocDropped(s: string, c: char, drop: char -> bool)
    requires drop(c)
    ensures RStrip(s + [c], drop) == RStrip(s, drop)
  {
    assert (s + [c])[..|s|] == s;
  }

  /** A kept character appended at the end survives `lstrip`. */
  lemma {:induction false} LStripSnocKept(s: string, c: char, drop: char -> bool)
    requires !drop(c)
    ensures LStrip(s + [c], drop) == LStrip(s, drop) + [c]
    decreases |s|
  {
    if s != [] && drop(s[0]) {
      assert (s + [c])[1..] == s[1..] + [c];
      LStripSnocKept(s[1..], c, drop);
    }
  }

  /** A kept character appended after a kept end survives `strip`. */
  lemma StripSnocKept(s: string, c: char, drop: char -> bool)
    requires !drop(c) && (s == [] || !drop(s[|s| - 1]))
    ensures Strip(s + [c], drop) == Strip(s, drop) + [c]
  {
    assert RStrip(s, drop) == s;
    assert RStrip(s + [c], drop) == s + [c];
    LStripSnocKept(s, c, drop);
  }

  /** `rstrip` of a string with one more character in front: that character is kept unless it is droppable and nothing else survives. */
  lemma {:induction false} RStripCons(c: char, s: string, drop: char -> bool)
    ensures RStrip([c] + s, drop) == if drop(c) && RStrip(s, drop) == [] then [] else [c] + RStrip(s, drop)
    decreases |s|
  {
    if s != [] {
      var z := [c] + s;
      var init := s[..|s| - 1];
      if drop(s[|s| - 1]) {
        assert z[..|z| - 1] == [c] + init;
        RStripCons(c, init, drop);
      }
    }
  }

  /** A droppable character in front makes no difference to `strip`. */
  lemma StripDropFirst(c: char, s: string, drop: char -> bool)
    requires drop(c)
    ensures Strip([c] + s, drop) == Strip(s, drop)
  {
    RStripCons(c, s, drop);
    var t := RStrip(s, drop);
    if t != [] {
      assert ([c] + t)[1..] == t;
    }
  }

  /** Droppable characters in front make no difference to `strip`. */
  lemma {:induction false} StripDropPrefix(w: string, s: string, drop: char -> bool)
    requires forall i :: 0 <= i < |w| ==> drop(w[i])
    ensures Strip(w + s, drop) == Strip(s, drop)
    decreases |w|
  {
    if w != [] {
      var tail := w[1..];
      assert w + s == [w[0]] + (tail + s);
      assert forall i :: 0 <= i < |tail| ==> drop(tail[i]) by {
        forall i | 0 <= i < |tail| ensures drop(tail[i]) {
          assert tail[i] == w[i + 1];
        }
      }
      StripDropFirst(w[0], tail + s, drop);
      StripDropPrefix(tail, s, drop);
    } else {
      assert w + s == s;
    }
  }

  /** Droppable characters at the end make no difference to `rstrip`. */
  lemma {:induction false} RStripDropSuffix(s: string, w: string, drop: char -> bool)
    requires forall i :: 0 <= i < |w| ==> drop(w[i])
    ensures RStrip(s + w, drop) == RStrip(s, drop)
    decreases |w|
  {
    if w != [] {
      var init := w[..|w| - 1];
      var c := w[|w| - 1];
      assert w == init + [c];
      assert s + w == (s + init) + [c];
      assert forall i :: 0 <= i < |init| ==> drop(init[i]) by {
        forall i | 0 <= i < |init| ensures drop(init[i]) {
          assert init[i] == w[i];
        }
      }
      RStripSnocDropped(s + init, c, drop);
      RStripDropSuffix(s, init, drop);
    } else {
      assert s + w == s;
    }
  }

  /** Droppable characters around a string make no difference to `strip`. */
  lemma StripDropSurrounding(w1: string, s: string, w2: string, drop: char -> bool)
    requires forall i :: 0 <= i < |w1| ==> drop(w1[i])
    requires forall i :: 0 <= i < |w2| ==> drop(w2[i])
    ensures Strip(w1 + s + w2, drop) == Strip(s, drop)
  {
    assert w1 + s + w2 == w1 + (s + w2);
    StripDropPrefix(w1, s + w2, drop);
    RStripDropSuffix(s, w2, drop);
  }

  /** The characters Python's `str.isspace` accepts, which `strip()` removes. */
  predicate IsSpace(c: char)
    ensures IsSpace(c) ==> c != '.' && !IsUpper(c)
  {
    || '\U{9}' <= c <= '\U{D}'
    || '\U{1C}' <= c <= ' '
    || c == '\U{85}' || c == '\U{A0}' || c == '\U{1680}'
    || '\U{2000}' <= c <= '\U{200A}'
    || c == '\U{2028}' || c == '\U{2029}' || c == '\U{202F}' || c == '\U{205F}' || c == '\U{3000}'
  }

  predicate IsDot(c: char) {
    c == '.'
  }

  predicate IsUpper(c: char) {
    'A' <= c <= 'Z'
  }

  /** Python's `str.lower`, restricted to the ASCII letters. */
  function LowerChar(c: char): (r: char)
    ensures !IsUpper(r)
    ensures IsUpper(c) ==> r as int == c as int + 32
    ensures !IsUpper(c) ==> r == c
  {
    if IsUpper(c) then (c as int + 32) as char else c
  }

  function Lower(s: string): (r: string)
    ensures |r| == |s|
    ensures forall i :: 0 <= i < |s| ==> r[i] == LowerChar(s[i])
  {
    if s == [] then [] else [LowerChar(s[0])] + Lower(s[1..])
  }

  /** Lower-casing a string that has no upper-case letter changes nothing. */
  lemma LowerKeeps(s: string)
    requires forall i :: 0 <= i < |s| ==> !IsUpper(s[i])
    ensures Lower(s) == s
  {
    assert forall i :: 0 <= i < |s| ==> Lower(s)[i] == s[i];
  }

  /** Lower-casing a string with a character that is not a capital appended. */
  lemma LowerSnoc(s: string, c: char)
    requires !IsUpper(c)
    ensures Lower(s + [c]) == Lower(s) + [c]
  {
    assert forall i :: 0 <= i < |s| + 1 ==> Lower(s + [c])[i] == (Lower(s) + [c])[i];
  }

  /** Lower-casing twice is lower-casing once. */
  lemma LowerIdempotent(s: string)
    ensures Lower(Lower(s)) == Lower(s)
  {
    assert forall i :: 0 <= i < |s| ==> Lower(Lower(s))[i] == Lower(s)[i];
  }

  /** Lower-casing never turns a character into whitespace or whitespace into something else. */
  lemma SpaceLower(c: char)
    ensures IsSpace(LowerChar(c)) == IsSpace(c)
  {
  }

  /** Lower-casing commutes with `rstrip()` of whitespace: no capital letter is whitespace. */
  lemma {:induction false} RStripSpaceLower(s: string)
    ensures RStrip(Lower(s), IsSpace) == Lower(RStrip(s, IsSpace))
    decreases |s|
  {
    if s != [] {
      var init, c, low := s[..|s| - 1], s[|s| - 1], Lower(s);
      assert low[|s| - 1] == LowerChar(c);
      SpaceLower(c);
      if IsSpace(c) {
        assert low[..|s| - 1] == Lower(init);
        RStripSpaceLower(init);
      }
    }
  }

  /** Lower-casing commutes with `lstrip()` of whitespace. */
  lemma {:induction false} LStripSpaceLower(s: string)
    ensures LStrip(Lower(s), IsSpace) == Lower(LStrip(s, IsSpace))
    decreases |s|
  {
    if s != [] {
      var low := Lower(s);
      assert low == [LowerChar(s[0])] + Lower(s[1..]);
      SpaceLower(s[0]);
      if IsSpace(s[0]) {
        assert low[1..] == Lower(s[1..]);
        LStripSpaceLower(s[1..]);
      }
    }
  }
}
