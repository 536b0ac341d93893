/**
 The suffix-matching engine of fast_psl/core.py: the rule normaliser that
 turns list text into reversed keys, the `PublicSuffixList` object that holds
 them, the longest-match resolver and the eTLD / eTLD+1 / subdomain
 decomposition.
 */
module Core {
  import opened Wrappers
  import opened PyStr
  import opened Helpers
  import opened Trie

  /** `etld_parts`: the result of one decomposition. */
  datatype EtldParts = EtldParts(domain: string, etld: string, etldPlusOne: string, subdomain: string)

  // ---------------------------------------------------------------- rule normaliser

  /** A line of the list that is a rule: not empty and not a `//` comment. */
  predicate IsRule(line: string)
    ensures IsRule(line) <==> |line| > 0 && !(|line| >= 2 && line[0] == '/' && line[1] == '/')
  {
    line != "" && !IsPrefix("//", line)
  }

  /** `k` is a key contributed by the rule `line`: the reversed rule, or its reversed punycode form when that differs. */
  ghost predicate IsKeyOf(k: string, line: string, codec: Codec) {
    || k == Reverse(line)
    || (codec(line).Some? && codec(line).value != line && k == Reverse(codec(line).value))
  }

  /** `[x for x in lines if x != "" and not x.startswith("//")]` */
  function KeptLines(lines: seq<string>): (r: seq<string>)
    ensures forall x :: x in r <==> x in lines && IsRule(x)
    ensures |r| <= |lines|
  {
    if lines == [] then []
    else (if IsRule(lines[0]) then [lines[0]] else []) + KeptLines(lines[1..])
  }

  /** `[to_punycode(d) for d in rules if should_store_punycode(d)]`; the codec's first failure propagates. */
  function PunycodeForms(rules: seq<string>, codec: Codec): (r: Result<seq<string>>)
    ensures r.Failure? <==> exists d :: d in rules && codec(d).None?
    ensures r.Failure? ==> r.error == EncodingError
    ensures r.Success? ==> forall p :: p in r.value <==> exists d :: d in rules && codec(d) == Some(p) && p != d
  {
    if rules == [] then Success([])
    else
      assert rules == [rules[0]] + rules[1..];
      var store :- ShouldStorePunycode(rules[0], codec);
      if store then
        var p := ToPunycode(rules[0], codec).value;
        var rest :- PunycodeForms(rules[1..], codec);
        Success([p] + rest)
      else
        PunycodeForms(rules[1..], codec)
  }

  /** `[reverse(x) for x in domains]` */
  function ReverseAll(domains: seq<string>): (r: seq<string>)
    ensures |r| == |domains|
    ensures forall i :: 0 <= i < |r| ==> r[i] == Reverse(domains[i])
  {
    seq(|domains|, i requires 0 <= i < |domains| => Reverse(domains[i]))
  }

  /** The text the rules are read from: the ICANN block in strict mode, the whole list otherwise. */
  function SourceText(text: string, strict: bool, markers: SectionMarkers): (r: Result<string>)
    ensures !strict ==> r == Success(text)
    ensures strict ==> (r.Failure? <==> !Contains(text, markers.icann.begin))
    ensures strict && r.Failure? ==> r.error == MissingBeginMarker
    ensures strict && r.Success? ==>
      Contains(text, r.value) && !Contains(r.value, markers.icann.begin) && !Contains(r.value, markers.icann.end)
  {
    if strict then FilterPublicOrPrivateBlock(text, true, markers) else Success(text)
  }

  /** `_process_psl_text`: the reversed keys of every rule line, plus those of the punycode forms that differ. */
  function ProcessPslText(text: string, strict: bool, markers: SectionMarkers, codec: Codec): (r: Result<seq<string>>)
    ensures SourceText(text, strict, markers).Failure? ==> r == Failure(MissingBeginMarker)
    ensures SourceText(text, strict, markers).Success? ==>
      var lines := Split(SourceText(text, strict, markers).value, "\n");
      && (r.Failure? <==> exists line :: line in lines && IsRule(line) && codec(line).None?)
      && (r.Failure? ==> r.error == EncodingError)
      && (r.Success? ==> forall k :: k in r.value <==> exists line :: line in lines && IsRule(line) && IsKeyOf(k, line, codec))
  {
    var block :- SourceText(text, strict, markers);
    var lines := Split(block, "\n");
    var rules := KeptLines(lines);
    var punycode :- PunycodeForms(rules, codec);
    var keys := ReverseAll(rules + punycode);
    KeysOfRules(lines, rules, punycode, keys, codec);
    Success(keys)
  }

  lemma KeysOfRules(lines: seq<string>, rules: seq<string>, punycode: seq<string>, keys: seq<string>, codec: Codec)
    requires rules == KeptLines(lines)
    requires PunycodeForms(rules, codec) == Success(punycode)
    requires keys == ReverseAll(rules + punycode)
    ensures forall k :: k in keys <==> exists line :: line in lines && IsRule(line) && IsKeyOf(k, line, codec)
  {
    forall k | k in keys
      ensures exists line :: line in lines && IsRule(line) && IsKeyOf(k, line, codec)
    {
      KeyHasRule(lines, rules, punycode, keys, codec, k);
    }
    forall k | exists line :: line in lines && IsRule(line) && IsKeyOf(k, line, codec)
      ensures k in keys
    {
      var line :| line in lines && IsRule(line) && IsKeyOf(k, line, codec);
      RuleHasKey(lines, rules, punycode, keys, codec, line, k);
    }
  }

  /** Every key comes from a rule line, directly or through its punycode form. */
  lemma KeyHasRule(lines: seq<string>, rules: seq<string>, punycode: seq<string>, keys: seq<string>, codec: Codec, k: string)
    requires rules == KeptLines(lines)
    requires PunycodeForms(rules, codec) == Success(punycode)
    requires keys == ReverseAll(rules + punycode)
    requires k in keys
    ensures exists line :: line in lines && IsRule(line) && IsKeyOf(k, line, codec)
  {
    var all := rules + punycode;
    var i :| 0 <= i < |keys| && keys[i] == k;
    if i < |rules| {
      assert all[i] in rules && IsKeyOf(k, all[i], codec);
    } else {
      assert all[i] in punycode;
      var d :| d in rules && codec(d) == Some(all[i]) && all[i] != d;
      assert IsKeyOf(k, d, codec);
    }
  }

  /** Every rule line contributes its keys. */
  lemma RuleHasKey(lines: seq<string>, rules: seq<string>, punycode: seq<string>, keys: seq<string>, codec: Codec, line: string, k: string)
    requires rules == KeptLines(lines)
    requires PunycodeForms(rules, codec) == Success(punycode)
    requires keys == ReverseAll(rules + punycode)
    requires line in lines && IsRule(line) && IsKeyOf(k, line, codec)
    ensures k in keys
  {
    var all := rules + punycode;
    assert line in rules;
    var x := if k == Reverse(line) then line else codec(line).value;
    assert x in all;
    var i :| 0 <= i < |all| && all[i] == x;
    assert keys[i] == k;
  }

  // ---------------------------------------------------------------- the list object

  /** `to_punycode` applied first when the caller asks for it. */
  function Encode(domain: string, convertToPunycode: bool, codec: Codec): (r: Result<string>)
    ensures !convertToPunycode ==> r == Success(domain)
    ensures convertToPunycode ==> (r.Failure? <==> codec(domain).None?)
    ensures r.Failure? ==> r.error == EncodingError
    ensures convertToPunycode && r.Success? ==> Some(r.value) == codec(domain)
  {
    if convertToPunycode then ToPunycode(domain, codec) else Success(domain)
  }

  /** `Reassemble(p)`: `subdomain + "." + etld_plus_one`, or `etld_plus_one` alone when there is no subdomain. */
  function Reassemble(p: EtldParts): string
  {
    if p.subdomain == "" then p.etldPlusOne else p.subdomain + "." + p.etldPlusOne
  }

  /** `PublicSuffixList`: the strict flag and the trie of reversed keys, both fixed at construction. */
  class PublicSuffixList {
    const strict: bool
    const publicSuffixes: set<string>

    /** Builds the trie from already normalised keys. */
    constructor (strict: bool, domains: seq<string>)
      ensures this.strict == strict
      ensures publicSuffixes == KeySet(domains)
    {
      this.strict := strict;
      publicSuffixes := KeySet(domains);
    }

    /** `PublicSuffixList(strict, psl_text=text)`: normalise the text, then build the trie; normalisation errors propagate. */
    static method FromText(text: string, strict: bool, markers: SectionMarkers, codec: Codec) returns (r: Result<PublicSuffixList>)
      ensures ProcessPslText(text, strict, markers, codec).Failure? ==>
        r == Failure(ProcessPslText(text, strict, markers, codec).error)
      ensures ProcessPslText(text, strict, markers, codec).Success? ==>
        && r.Success? && fresh(r.value)
        && r.value.strict == strict
        && r.value.publicSuffixes == KeySet(ProcessPslText(text, strict, markers, codec).value)
    {
      var domains := ProcessPslText(text, strict, markers, codec);
      if domains.Failure? {
        return Failure(domains.error);
      }
      var psl := new PublicSuffixList(strict, domains.value);
      return Success(psl);
    }

    /** `get_public_suffix`: encode if asked, sanitise, reverse, and take the longest key that is a prefix. */
    function GetPublicSuffix(domain: string, convertToPunycode: bool, codec: Codec): (r: Result<string>)
      ensures Encode(domain, convertToPunycode, codec).Failure? ==> r == Failure(EncodingError)
      ensures Encode(domain, convertToPunycode, codec).Success? ==>
        var s := SanitizeDomain(Encode(domain, convertToPunycode, codec).value);
        && (r.Failure? ==> r.error == SuffixNotFound && forall k :: k in publicSuffixes ==> !IsPrefix(k, Reverse(s)))
        && (r.Success? ==> IsLongestMatch(publicSuffixes, Reverse(s), Reverse(r.value)))
        && (r.Success? ==> IsSuffix(r.value, s))
    {
      match Encode(domain, convertToPunycode, codec)
      case Failure(e) => Failure(e)
      case Success(d) => LongestSuffix(publicSuffixes, SanitizeDomain(d))
    }

    /** `get_public_suffix_parts`: lower-case (and optionally encode) the domain, resolve its suffix, then decompose with `replace`, as written. */
    function GetPublicSuffixParts(domain: string, convertToPunycode: bool, codec: Codec): (r: Result<EtldParts>)
      ensures Encode(Lower(domain), convertToPunycode, codec).Failure? ==> r == Failure(EncodingError)
      ensures Encode(Lower(domain), convertToPunycode, codec).Success? ==>
        var d := Encode(Lower(domain), convertToPunycode, codec).value;
        var suffix := GetPublicSuffix(d, convertToPunycode, codec);
        && (suffix.Failure? ==> r == Failure(suffix.error))
        && (suffix.Success? ==> r.Success? && r.value.domain == d && r.value.etld == suffix.value)
        && (r.Success? ==> r.value == Decompose(r.value.domain, r.value.etld))
    {
      var d :- Encode(Lower(domain), convertToPunycode, codec);
      var suffix :- GetPublicSuffix(d, convertToPunycode, codec);
      Success(Decompose(d, suffix))
    }

    /** `get_public_suffix_parts` with its `replace` corrected to cut only the last occurrence of the suffix. */
    function GetPublicSuffixPartsAtTail(domain: string, convertToPunycode: bool, codec: Codec): (r: Result<EtldParts>)
      ensures Encode(Lower(domain), convertToPunycode, codec).Failure? ==> r == Failure(EncodingError)
      ensures Encode(Lower(domain), convertToPunycode, codec).Success? ==>
        var d := Encode(Lower(domain), convertToPunycode, codec).value;
        var suffix := GetPublicSuffix(d, convertToPunycode, codec);
        && (suffix.Failure? ==> r == Failure(suffix.error))
        && (suffix.Success? ==> r.Success? && r.value.domain == d && r.value.etld == suffix.value)
        && (r.Success? ==> r.value == DecomposeAtTail(r.value.domain, r.value.etld))
    {
      var d :- Encode(Lower(domain), convertToPunycode, codec);
      var suffix :- GetPublicSuffix(d, convertToPunycode, codec);
      Success(DecomposeAtTail(d, suffix))
    }
  }

  /** The lookup of `get_public_suffix`: query the trie with the reversed sanitised domain; no prefix raises, otherwise the last (longest) one is reversed back. */
  function LongestSuffix(keys: set<string>, s: string): (r: Result<string>)
    ensures r.Failure? ==> r == Failure(SuffixNotFound) && forall k :: k in keys ==> !IsPrefix(k, Reverse(s))
    ensures r.Success? ==> IsLongestMatch(keys, Reverse(s), Reverse(r.value)) && IsSuffix(r.value, s)
  {
    var search := Prefixes(keys, Reverse(s));
    if |search| == 0 then
      Failure(SuffixNotFound)
    else
      LongestSuffixFacts(keys, s);
      Success(Reverse(search[|search| - 1]))
  }

  /** The reversal of the last prefix found is the longest matching key, read back as a suffix of the query. */
  lemma LongestSuffixFacts(keys: set<string>, s: string)
    requires |Prefixes(keys, Reverse(s))| > 0
    ensures var search := Prefixes(keys, Reverse(s));
      var r := Reverse(search[|search| - 1]);
      IsLongestMatch(keys, Reverse(s), Reverse(r)) && IsSuffix(r, s)
  {
    var q := Reverse(s);
    var search := Prefixes(keys, q);
    var longest := search[|search| - 1];
    LastPrefixIsLongest(keys, q);
    ReverseInvolution(longest);
    assert IsLongestMatch(keys, q, Reverse(Reverse(longest)));
    PrefixOfReverseToSuffix(longest, s);
  }

  // ---------------------------------------------------------------- decomposition

  /** The rebuilding step of `get_public_suffix_parts`, given what is left of the domain once the suffix and the dots around it are stripped: split on dots and rebuild around the last piece. */
  function Assemble(domain: string, etld: string, rest: string): (r: EtldParts)
    requires rest == [] || rest[0] != '.'
    ensures r.domain == domain && r.etld == etld
    ensures IsSuffix("." + etld, r.etldPlusOne)
    ensures '.' !in r.etldPlusOne[..|r.etldPlusOne| - |etld| - 1]
    ensures r.subdomain == "" <==> '.' !in rest
    ensures Reassemble(r) == rest + "." + etld
  {
    var parts := Split(rest, ".");
    var last := parts[|parts| - 1];
    var subdomain := Join(".", parts[..|parts| - 1]);
    PiecesAroundLastDot(rest, parts, parts[..|parts| - 1], last);
    RebuildFacts(rest, etld, last, subdomain, |parts| == 1);
    EtldParts(domain, etld, last + "." + etld, subdomain)  // etld_plus_one = ".".join([parts[-1], etld])
  }

  /** The eTLD+1 and subdomain built around the last dot-free piece reassemble the stripped remainder. */
  lemma RebuildFacts(rest: string, etld: string, last: string, subdomain: string, single: bool)
    requires '.' !in last
    requires single <==> '.' !in rest
    requires single ==> last == rest && subdomain == ""
    requires !single ==> subdomain != "" && subdomain + "." + last == rest
    ensures IsSuffix("." + etld, last + "." + etld)
    ensures '.' !in (last + "." + etld)[..|last + "." + etld| - |etld| - 1]
    ensures subdomain == "" <==> '.' !in rest
    ensures Reassemble(EtldParts(rest, etld, last + "." + etld, subdomain)) == rest + "." + etld
  {
    var e := last + "." + etld;
    assert e[..|last|] == last;
    assert e[|last|..] == "." + etld;
    if !single {
      assert subdomain + "." + e == (subdomain + "." + last) + "." + etld;
    }
  }

  /** What `split(".")` leaves of a string that does not start with a dot. */
  lemma PiecesAroundLastDot(rest: string, parts: seq<string>, init: seq<string>, last: string)
    requires rest == [] || rest[0] != '.'
    requires parts == Split(rest, ".") && init == parts[..|parts| - 1] && last == parts[|parts| - 1]
    ensures '.' !in last
    ensures |parts| == 1 <==> '.' !in rest
    ensures |parts| == 1 ==> last == rest && Join(".", init) == ""
    ensures |parts| > 1 ==> Join(".", init) != "" && Join(".", init) + "." + last == rest
  {
    SplitPiecesAvoidSeparator(rest, ".", |parts| - 1);
    CharContains(last, '.');
    SplitSingle(rest, ".");
    CharContains(rest, '.');
    JoinSplit(rest, ".");
    if |parts| > 1 {
      assert parts == init + [last];
      JoinSnoc(".", init, last);
    }
  }

  /** The decomposition of `get_public_suffix_parts` as written: `domain.replace(etld, "")` removes every occurrence of the suffix. */
  function Decompose(domain: string, etld: string): (r: EtldParts)
    ensures r.domain == domain && r.etld == etld
    ensures IsSuffix("." + etld, r.etldPlusOne)
    ensures '.' !in r.etldPlusOne[..|r.etldPlusOne| - |etld| - 1]
    ensures r.subdomain == "" <==> '.' !in Strip(RemoveAll(domain, etld), IsDot)
    ensures Reassemble(r) == Strip(RemoveAll(domain, etld), IsDot) + "." + etld
  {
    Assemble(domain, etld, Strip(RemoveAll(domain, etld), IsDot))
  }

  /** The evident intent of the decomposition in `get_public_suffix_parts`: remove only the last occurrence of the suffix, which is the end of the domain whenever the domain ends in it. */
  function DecomposeAtTail(domain: string, etld: string): (r: EtldParts)
    ensures r.domain == domain && r.etld == etld
    ensures IsSuffix("." + etld, r.etldPlusOne)
    ensures '.' !in r.etldPlusOne[..|r.etldPlusOne| - |etld| - 1]
    ensures r.subdomain == "" <==> '.' !in Strip(RemoveLast(domain, etld), IsDot)
    ensures Reassemble(r) == Strip(RemoveLast(domain, etld), IsDot) + "." + etld
    ensures IsSuffix(etld, domain) ==> Reassemble(r) == Strip(domain[..|domain| - |etld|], IsDot) + "." + etld
  {
    RemoveLastAtTail(domain, etld);
    Assemble(domain, etld, Strip(RemoveLast(domain, etld), IsDot))
  }

  /** A label part with no dot at either end survives `strip(".")` after the joining dot is added. */
  lemma StripJoiningDot(p: string)
    requires p == [] || (p[0] != '.' && p[|p| - 1] != '.')
    ensures Strip(p + ".", IsDot) == p
  {
    RStripSnocDropped(p, '.', IsDot);
    assert RStrip(p, IsDot) == p;
  }

  /** Round trip as written: it holds when the suffix occurs nowhere but at the end and the part before it has no dot at either end. */
  lemma DecomposeRoundTrip(domain: string, etld: string, p: string)
    requires etld != ""
    requires domain == p + "." + etld
    requires forall i :: OccursAt(domain, etld, i) ==> i == |domain| - |etld|
    requires p == [] || (p[0] != '.' && p[|p| - 1] != '.')
    ensures Reassemble(Decompose(domain, etld)) == domain
  {
    RemoveAllOnlyAtTail(domain, etld);
    assert domain[..|domain| - |etld|] == p + ".";
    StripJoiningDot(p);
  }

  /** Round trip of the corrected decomposition: no condition on other occurrences of the suffix. */
  lemma DecomposeAtTailRoundTrip(domain: string, etld: string, p: string)
    requires domain == p + "." + etld
    requires p == [] || (p[0] != '.' && p[|p| - 1] != '.')
    ensures Reassemble(DecomposeAtTail(domain, etld)) == domain
  {
    assert domain[..|domain| - |etld|] == p + ".";
    StripJoiningDot(p);
  }

  /** The two decompositions agree whenever the suffix occurs only at the end. */
  lemma DecomposeAgreesAtTail(domain: string, etld: string)
    requires etld != "" && IsSuffix(etld, domain)
    requires forall i :: OccursAt(domain, etld, i) ==> i == |domain| - |etld|
    ensures Decompose(domain, etld) == DecomposeAtTail(domain, etld)
  {
    RemoveAllOnlyAtTail(domain, etld);
    RemoveLastAtTail(domain, etld);
  }
}
