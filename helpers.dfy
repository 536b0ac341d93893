/**
 The string helpers of the suffix engine: character reversal, query
 sanitising, cutting the ICANN or private block out of the list text, and the
 punycode test. The IDNA codec itself is a parameter.
 */
module Helpers {
  import opened Wrappers
  import opened PyStr

  /** `to_punycode`: Python's IDNA codec, `domain.encode("idna").decode("utf-8")`; None when it raises. */
  type Codec = string -> Option<string>

  /** A begin/end marker pair delimiting one section of the list. */
  datatype Markers = Markers(begin: Separator, end: Separator)

  /** `ICANN_MARKERS` and `PRIVATE_MARKERS`. */
  datatype SectionMarkers = SectionMarkers(icann: Markers, private: Markers)

  /** `to_punycode` with the codec's exception as an error value. */
  function ToPunycode(domain: string, codec: Codec): (r: Result<string>)
    ensures r.Failure? <==> codec(domain).None?
    ensures r.Failure? ==> r.error == EncodingError
    ensures r.Success? ==> Some(r.value) == codec(domain)
  {
    match codec(domain)
    case None => Failure(EncodingError)
    case Some(p) => Success(p)
  }

  /** `should_store_punycode`: holds when the punycode form differs from the rule itself. */
  function ShouldStorePunycode(domain: string, codec: Codec): (r: Result<bool>)
    ensures r.Failure? <==> codec(domain).None?
    ensures r.Failure? ==> r.error == EncodingError
    ensures r.Success? ==> (r.value <==> codec(domain).value != domain)
  {
    var p :- ToPunycode(domain, codec);
    Success(domain != p)
  }

  /** `reverse`: `domain[::-1]`, a reversal of characters, not of labels. */
  function Reverse(s: string): (r: string)
    ensures |r| == |s|
  {
    seq(|s|, k requires 0 <= k < |s| => s[|s| - 1 - k])
  }

  lemma ReverseInvolution(s: string)
    ensures Reverse(Reverse(s)) == s
  {
    assert forall i :: 0 <= i < |s| ==> Reverse(Reverse(s))[i] == s[i];
  }

  /** Reversal is injective. */
  lemma ReverseInjective(a: string, b: string)
    requires Reverse(a) == Reverse(b)
    ensures a == b
  {
    ReverseInvolution(a);
    ReverseInvolution(b);
  }

  /** A prefix of the reversed string is the reversal of a suffix of the string. */
  lemma PrefixOfReverse(k: string, s: string)
    ensures IsPrefix(k, Reverse(s)) <==> IsSuffix(Reverse(k), s)
  {
    if IsPrefix(k, Reverse(s)) {
      PrefixOfReverseToSuffix(k, s);
    }
    if IsSuffix(Reverse(k), s) {
      SuffixToPrefixOfReverse(k, s);
    }
  }

  lemma PrefixOfReverseToSuffix(k: string, s: string)
    requires IsPrefix(k, Reverse(s))
    ensures IsSuffix(Reverse(k), s)
  {
    var rs, rk, n := Reverse(s), Reverse(k), |s| - |k|;
    var tail := s[n..];
    forall m | 0 <= m < |k|
      ensures tail[m] == rk[m]
    {
      var p := |k| - 1 - m;
      assert k[p] == rs[p];
    }
    assert tail == rk;
  }

  lemma SuffixToPrefixOfReverse(k: string, s: string)
    requires IsSuffix(Reverse(k), s)
    ensures IsPrefix(k, Reverse(s))
  {
    var rs, rk, n := Reverse(s), Reverse(k), |s| - |k|;
    var head := rs[..|k|];
    forall m | 0 <= m < |k|
      ensures head[m] == k[m]
    {
      var p := |k| - 1 - m;
      assert s[n + p] == s[n..][p];
    }
    assert head == k;
  }

  /** `sanitize_domain`: `domain.strip().lower().rstrip(".")`. */
  function SanitizeDomain(domain: string): (r: string)
    ensures r == [] || r[|r| - 1] != '.'
    ensures r == [] || !IsSpace(r[0])
    ensures forall i :: 0 <= i < |r| ==> !IsUpper(r[i])
    ensures IsPrefix(r, Lower(Strip(domain, IsSpace)))
    ensures forall i :: |r| <= i < |Lower(Strip(domain, IsSpace))| ==> Lower(Strip(domain, IsSpace))[i] == '.'
  {
    var stripped := Strip(domain, IsSpace);
    var lowered := Lower(stripped);
    var r := RStrip(lowered, IsDot);
    SanitizeShape(stripped, lowered, r);
    r
  }

  lemma SanitizeShape(stripped: string, lowered: string, r: string)
    requires stripped == [] || !IsSpace(stripped[0])
    requires lowered == Lower(stripped)
    requires IsPrefix(r, lowered)
    ensures r == [] || !IsSpace(r[0])
    ensures forall i :: 0 <= i < |r| ==> !IsUpper(r[i])
  {
    assert forall i :: 0 <= i < |r| ==> r[i] == lowered[i];
    if r != [] {
      assert r[0] == LowerChar(stripped[0]);
    }
  }

  /** A string already in sanitised form (no surrounding whitespace, no capitals, no trailing dot) is left alone; leading dots in particular are kept. */
  lemma SanitizeKeepsCanonical(d: string)
    requires d == [] || (!IsSpace(d[0]) && !IsSpace(d[|d| - 1]) && d[|d| - 1] != '.')
    requires forall i :: 0 <= i < |d| ==> !IsUpper(d[i])
    ensures SanitizeDomain(d) == d
  {
    StripKeeps(d, IsSpace);
    LowerKeeps(d);
    assert d == [] || !IsDot(d[|d| - 1]);
    assert RStrip(d, IsDot) == d;
  }

  lemma SanitizeLeadingDot()
    ensures SanitizeDomain(".com") == ".com"
  {
    SanitizeKeepsCanonical(".com");
  }

  /** `rstrip(".")` removes every trailing dot: one more dot after a domain with no trailing whitespace changes nothing. */
  lemma SanitizeIgnoresTrailingDot(d: string)
    requires d == [] || !IsSpace(d[|d| - 1])
    ensures SanitizeDomain(d + ".") == SanitizeDomain(d)
  {
    var lowered := Lower(Strip(d, IsSpace));
    TrailingDotSurvivesStrip(d);
    RStripSnocDropped(lowered, '.', IsDot);
  }

  /** `strip()` and `lower()` keep a trailing dot that follows no whitespace. */
  lemma TrailingDotSurvivesStrip(d: string)
    requires d == [] || !IsSpace(d[|d| - 1])
    ensures Lower(Strip(d + ".", IsSpace)) == Lower(Strip(d, IsSpace)) + ['.']
  {
    StripSnocKept(d, '.', IsSpace);
    LowerSnoc(Strip(d, IsSpace), '.');
  }

  /** Capital letters do not change the sanitised form. */
  lemma SanitizeIgnoresCase(d: string)
    ensures SanitizeDomain(Lower(d)) == SanitizeDomain(d)
  {
    RStripSpaceLower(d);
    LStripSpaceLower(RStrip(d, IsSpace));
    LowerIdempotent(Strip(d, IsSpace));
  }

  /** Whitespace around a domain does not change the sanitised form. */
  lemma SanitizeIgnoresSurroundingSpace(w1: string, d: string, w2: string)
    requires forall i :: 0 <= i < |w1| ==> IsSpace(w1[i])
    requires forall i :: 0 <= i < |w2| ==> IsSpace(w2[i])
    ensures SanitizeDomain(w1 + d + w2) == SanitizeDomain(d)
  {
    StripDropSurrounding(w1, d, w2, IsSpace);
  }

  /** `filter_public_or_private_block`: the stripped text after the first begin marker, up to the next begin or end marker. */
  function FilterPublicOrPrivateBlock(text: string, public: bool, markers: SectionMarkers): (r: Result<string>)
    ensures var m := if public then markers.icann else markers.private;
      && (r.Failure? <==> !Contains(text, m.begin))
      && (r.Failure? ==> r.error == MissingBeginMarker)
      && (r.Success? ==> Contains(text, r.value) && !Contains(r.value, m.begin) && !Contains(r.value, m.end))
  {
    var m := if public then markers.icann else markers.private;
    var parts := Split(text, m.begin);
    SplitSingle(text, m.begin);
    if |parts| < 2 then Failure(MissingBeginMarker)
    else
      var block := Split(parts[1], m.end)[0];
      var r := Strip(block, IsSpace);
      BlockFacts(text, m, parts[1], block, r);
      Success(r)
  }

  lemma BlockFacts(text: string, m: Markers, section: string, block: string, r: string)
    requires |Split(text, m.begin)| >= 2 && section == Split(text, m.begin)[1]
    requires block == Split(section, m.end)[0]
    requires r == Strip(block, IsSpace)
    ensures Contains(text, r) && !Contains(r, m.begin) && !Contains(r, m.end)
  {
    var j := |RStrip(block, IsSpace)| - |r|;
    assert OccursAt(block, r, j);
    SplitFirstIsPrefix(section, m.end);
    assert OccursAt(section, block, 0);
    BlockOccurs(text, m, section, block, r, j);
    SplitPiecesAvoidSeparator(text, m.begin, 1);
    SplitPiecesAvoidSeparator(section, m.end, 0);
    BlockAvoids(section, block, r, j, m);
  }

  /** The stripped block occurs in the text, inside the section after the begin marker. */
  lemma BlockOccurs(text: string, m: Markers, section: string, block: string, r: string, j: int)
    requires |Split(text, m.begin)| >= 2 && section == Split(text, m.begin)[1]
    requires OccursAt(section, block, 0) && OccursAt(block, r, j)
    ensures Contains(text, r)
  {
    var i := SplitPiecesOccur(text, m.begin, 1);
    OccursTrans(text, section, block, i, 0);
    OccursTrans(text, block, r, i, j);
  }

  /** A slice of a slice of a marker-free section is marker-free. */
  lemma BlockAvoids(section: string, block: string, r: string, j: int, m: Markers)
    requires OccursAt(section, block, 0) && OccursAt(block, r, j)
    requires !Contains(section, m.begin) && !Contains(block, m.end)
    ensures !Contains(r, m.begin) && !Contains(r, m.end)
  {
    NotContainsSlice(section, 0, |block|, m.begin);
    assert section[0..|block|] == block;
    NotContainsSlice(block, j, j + |r|, m.begin);
    NotContainsSlice(block, j, j + |r|, m.end);
    assert block[j..j + |r|] == r;
  }

  /** The block is the text after the first begin marker, cut at the next begin marker, then at the first end marker, then stripped; without a begin marker the filter fails. */
  lemma BlockBetweenMarkers(text: string, public: bool, markers: SectionMarkers)
    ensures var m := if public then markers.icann else markers.private;
      Find(text, m.begin).None? ==> FilterPublicOrPrivateBlock(text, public, markers) == Failure(MissingBeginMarker)
    ensures var m := if public then markers.icann else markers.private;
      Find(text, m.begin).Some? ==>
        var rest := text[Find(text, m.begin).value + |m.begin|..];
        var section := match Find(rest, m.begin) case None => rest case Some(j) => rest[..j];
        FilterPublicOrPrivateBlock(text, public, markers)
          == Success(Strip(match Find(section, m.end) case None => section case Some(j) => section[..j], IsSpace))
  {
    var m := if public then markers.icann else markers.private;
    FindContains(text, m.begin);
    if Find(text, m.begin).Some? {
      var i := Find(text, m.begin).value;
      var rest := text[i + |m.begin|..];
      assert Split(text, m.begin) == [text[..i]] + Split(rest, m.begin);
      var section := Split(rest, m.begin)[0];
      SplitFirstIsPrefix(rest, m.begin);
      assert section == match Find(rest, m.begin) case None => rest case Some(j) => rest[..j];
      var block := Split(section, m.end)[0];
      SplitFirstIsPrefix(section, m.end);
      assert block == match Find(section, m.end) case None => section case Some(j) => section[..j];
      assert FilterPublicOrPrivateBlock(text, public, markers) == Success(Strip(block, IsSpace));
    }
  }
}
