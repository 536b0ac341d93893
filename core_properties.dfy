/**
 Properties of the suffix engine that relate several operations: strict mode
 against loose mode, the resolver stated without reversal, and worked queries
 and decompositions over a small list.
 */
module CoreProperties {
  import opened Wrappers
  import opened PyStr
  import opened Helpers
  import opened Trie
  import opened Core

  // ---------------------------------------------------------------- normaliser

  /** A rule line of the whole list that is neither a line of the ICANN block nor the punycode form of one is a key in loose mode and not a key in strict mode. */
  lemma StrictModeDropsRulesOutsideIcannBlock(text: string, markers: SectionMarkers, codec: Codec, x: string)
    requires FilterPublicOrPrivateBlock(text, true, markers).Success?
    requires ProcessPslText(text, false, markers, codec).Success?
    requires ProcessPslText(text, true, markers, codec).Success?
    requires x in Split(text, "\n") && IsRule(x)
    requires forall line :: line in Split(FilterPublicOrPrivateBlock(text, true, markers).value, "\n") ==>
      line != x && codec(line) != Some(x)
    ensures Reverse(x) in ProcessPslText(text, false, markers, codec).value
    ensures Reverse(x) !in ProcessPslText(text, true, markers, codec).value
  {
    assert IsKeyOf(Reverse(x), x, codec);
    var lines := Split(FilterPublicOrPrivateBlock(text, true, markers).value, "\n");
    if line :| line in lines && IsRule(line) && IsKeyOf(Reverse(x), line, codec) {
      if Reverse(x) == Reverse(line) {
        ReverseInjective(x, line);
      } else {
        ReverseInjective(x, codec(line).value);
      }
    }
  }

  // ---------------------------------------------------------------- resolver

  /** The resolver without reversal: it returns `t` exactly when `t` reversed is a key, `t` ends the query, and no key whose reversal ends the query is longer. */
  lemma LongestSuffixIsLongestReversedKey(keys: set<string>, s: string, t: string)
    ensures LongestSuffix(keys, s) == Success(t) <==>
      && Reverse(t) in keys
      && IsSuffix(t, s)
      && forall k :: k in keys && IsSuffix(Reverse(k), s) ==> |k| <= |t|
  {
    var q := Reverse(s);
    var r := LongestSuffix(keys, s);
    if r == Success(t) {
      forall k | k in keys && IsSuffix(Reverse(k), s)
        ensures |k| <= |t|
      {
        SuffixToPrefixOfReverse(k, s);
      }
    }
    if Reverse(t) in keys && IsSuffix(t, s) && forall k :: k in keys && IsSuffix(Reverse(k), s) ==> |k| <= |t| {
      ReverseInvolution(t);
      SuffixToPrefixOfReverse(Reverse(t), s);
      assert r.Success?;
      forall k | k in keys && IsPrefix(k, q)
        ensures |k| <= |Reverse(t)|
      {
        PrefixOfReverseToSuffix(k, s);
      }
      assert IsLongestMatch(keys, q, Reverse(t));
      LongestMatchUnique(keys, q, Reverse(t), Reverse(r.value));
      ReverseInjective(t, r.value);
    }
  }

  /** The resolver fails exactly when no key, read back, ends the query. */
  lemma LongestSuffixNotFound(keys: set<string>, s: string)
    ensures LongestSuffix(keys, s) == Failure(SuffixNotFound) <==> forall k :: k in keys ==> !IsSuffix(Reverse(k), s)
  {
    forall k | k in keys
      ensures IsPrefix(k, Reverse(s)) <==> IsSuffix(Reverse(k), s)
    {
      PrefixOfReverse(k, s);
    }
  }

  /** Without conversion, a query depends on the domain only through its sanitised form; this follows directly from the resolver's definition. */
  lemma QueryDependsOnlyOnSanitisedDomain(psl: PublicSuffixList, a: string, b: string, codec: Codec)
    ensures psl.GetPublicSuffix(a, false, codec) == LongestSuffix(psl.publicSuffixes, SanitizeDomain(a))
    ensures SanitizeDomain(a) == SanitizeDomain(b) ==>
      psl.GetPublicSuffix(a, false, codec) == psl.GetPublicSuffix(b, false, codec)
  {
  }

  // ---------------------------------------------------------------- worked queries

  /** The reversal of `t` is a key, `t` ends the query and no longer key does: the resolver returns `t`. */
  lemma ResolvesTo(keys: set<string>, s: string, t: string)
    requires Reverse(t) in keys && IsSuffix(t, s)
    requires forall k :: k in keys && IsSuffix(Reverse(k), s) ==> |k| <= |t|
    ensures LongestSuffix(keys, s) == Success(t)
  {
    LongestSuffixIsLongestReversedKey(keys, s, t);
  }

  /** No key, read back, ends the query: the resolver raises. */
  lemma ResolvesNowhere(keys: set<string>, s: string)
    requires forall k :: k in keys ==> !IsSuffix(Reverse(k), s)
    ensures LongestSuffix(keys, s) == Failure(SuffixNotFound)
  {
    LongestSuffixNotFound(keys, s);
  }

  /** With the keys of `c` and `b.c`, the longer one wins for `a.b.c`. */
  lemma LongestMatchExample()
    ensures LongestSuffix({"c", "c.b"}, "a.b.c") == Success("b.c")
  {
    assert Reverse("b.c") == "c.b";
    ResolvesTo({"c", "c.b"}, "a.b.c", "b.c");
  }

  /** A match need not start at a label: `telecom` ends in `com`. */
  lemma MatchIgnoresLabelBoundaries()
    ensures LongestSuffix({"moc"}, "telecom") == Success("com")
  {
    assert Reverse("com") == "moc";
    ResolvesTo({"moc"}, "telecom", "com");
  }

  /** `.c`, whose leading dot sanitising keeps, still resolves to `c`. */
  lemma LeadingDotExample()
    ensures LongestSuffix({"c", "c.b"}, ".c") == Success("c")
  {
    assert Reverse("c") == "c" && Reverse("c.b") == "b.c";
    ResolvesTo({"c", "c.b"}, ".c", "c");
  }

  /** `a.b.x` ends in no key: the resolver raises. */
  lemma NotFoundExample()
    ensures LongestSuffix({"c", "c.b"}, "a.b.x") == Failure(SuffixNotFound)
  {
    assert Reverse("c") == "c" && Reverse("c.b") == "b.c";
    ResolvesNowhere({"c", "c.b"}, "a.b.x");
  }

  /** Without conversion, capital letters in the query do not change the answer. */
  lemma QueryIgnoresCase(psl: PublicSuffixList, d: string, codec: Codec)
    ensures psl.GetPublicSuffix(Lower(d), false, codec) == psl.GetPublicSuffix(d, false, codec)
  {
    SanitizeIgnoresCase(d);
  }

  /** Without conversion, one more trailing dot after a domain with no trailing whitespace does not change the answer. */
  lemma QueryIgnoresTrailingDot(psl: PublicSuffixList, d: string, codec: Codec)
    requires d == [] || !IsSpace(d[|d| - 1])
    ensures psl.GetPublicSuffix(d + ".", false, codec) == psl.GetPublicSuffix(d, false, codec)
  {
    SanitizeIgnoresTrailingDot(d);
  }

  /** Without conversion, whitespace around the domain does not change the answer. */
  lemma QueryIgnoresSurroundingSpace(psl: PublicSuffixList, w1: string, d: string, w2: string, codec: Codec)
    requires forall i :: 0 <= i < |w1| ==> IsSpace(w1[i])
    requires forall i :: 0 <= i < |w2| ==> IsSpace(w2[i])
    ensures psl.GetPublicSuffix(w1 + d + w2, false, codec) == psl.GetPublicSuffix(d, false, codec)
  {
    SanitizeIgnoresSurroundingSpace(w1, d, w2);
  }

  // ---------------------------------------------------------------- decomposition

  /** A domain that is its own suffix: the eTLD+1 is the suffix behind a bare dot and there is no subdomain. */
  lemma BareSuffixParts(etld: string)
    ensures Decompose(etld, etld) == EtldParts(etld, etld, "." + etld, "")
  {
    RemoveAllSelf(etld);
    assert Strip([], IsDot) == [];
  }

  /** Corrected: a domain that is its own suffix decomposes in the same way. */
  lemma BareSuffixPartsAtTail(etld: string)
    ensures DecomposeAtTail(etld, etld) == EtldParts(etld, etld, "." + etld, "")
  {
    RemoveLastAtTail(etld, etld);
    assert Strip([], IsDot) == [];
  }

  /** As written: an occurrence of the suffix that ends before the final one is removed too, so the parts reassemble to a shorter string than the domain. */
  lemma ReplaceLosesEarlierOccurrence(domain: string, etld: string, i: int)
    requires |etld| >= 2 && IsSuffix(etld, domain)
    requires OccursAt(domain, etld, i) && i + |etld| <= |domain| - |etld|
    ensures |Reassemble(Decompose(domain, etld))| < |domain|
  {
    assert OccursAt(domain, etld, |domain| - |etld|);
    RemoveAllShrinksTwice(domain, etld, i, |domain| - |etld|);
    var removed := RemoveAll(domain, etld);
    assert |Strip(removed, IsDot)| <= |removed|;
  }

  /** The object-level round trip as written: a lower-case domain `p + "." + etld` whose suffix occurs nowhere else and whose `p` has no dot at either end is rebuilt from its parts. */
  lemma PartsRoundTrip(psl: PublicSuffixList, domain: string, codec: Codec, p: string)
    requires forall i :: 0 <= i < |domain| ==> !IsUpper(domain[i])
    requires psl.GetPublicSuffixParts(domain, false, codec).Success?
    requires domain == p + "." + psl.GetPublicSuffixParts(domain, false, codec).value.etld
    requires psl.GetPublicSuffixParts(domain, false, codec).value.etld != ""
    requires forall i :: OccursAt(domain, psl.GetPublicSuffixParts(domain, false, codec).value.etld, i) ==>
      i == |domain| - |psl.GetPublicSuffixParts(domain, false, codec).value.etld|
    requires p == [] || (p[0] != '.' && p[|p| - 1] != '.')
    ensures Reassemble(psl.GetPublicSuffixParts(domain, false, codec).value) == domain
  {
    LowerKeeps(domain);
    var etld := psl.GetPublicSuffixParts(domain, false, codec).value.etld;
    DecomposeRoundTrip(domain, etld, p);
  }

  /** Corrected: the object-level round trip needs no condition on other occurrences of the suffix. */
  lemma PartsRoundTripAtTail(psl: PublicSuffixList, domain: string, codec: Codec, p: string)
    requires forall i :: 0 <= i < |domain| ==> !IsUpper(domain[i])
    requires psl.GetPublicSuffixPartsAtTail(domain, false, codec).Success?
    requires domain == p + "." + psl.GetPublicSuffixPartsAtTail(domain, false, codec).value.etld
    requires p == [] || (p[0] != '.' && p[|p| - 1] != '.')
    ensures Reassemble(psl.GetPublicSuffixPartsAtTail(domain, false, codec).value) == domain
  {
    LowerKeeps(domain);
    var etld := psl.GetPublicSuffixPartsAtTail(domain, false, codec).value.etld;
    DecomposeAtTailRoundTrip(domain, etld, p);
  }

  /** `community.com` with the suffix `com` is not reassembled: the leading `com` of `community` goes as well. */
  lemma CommunityCounterexample()
    ensures Reassemble(Decompose("community.com", "com")) != "community.com"
  {
    ReplaceLosesEarlierOccurrence("community.com", "com", 0);
  }

  /** Corrected: removing only the final occurrence reassembles `community.com`. */
  lemma CommunityAtTail()
    ensures Reassemble(DecomposeAtTail("community.com", "com")) == "community.com"
  {
    DecomposeAtTailRoundTrip("community.com", "com", "community");
  }

  /** As written, the round trip also needs the part before the suffix to have no leading dot, even when the suffix occurs only at the end: `strip(".")` drops it. */
  lemma LeadingDotLost(p: string, etld: string)
    requires p != [] && p[0] == '.' && etld != ""
    requires forall i :: OccursAt(p + "." + etld, etld, i) ==> i == |p + "." + etld| - |etld|
    ensures |Reassemble(Decompose(p + "." + etld, etld))| < |p + "." + etld|
  {
    var domain := p + "." + etld;
    assert domain[|domain| - |etld|..] == etld;
    DecomposeAgreesAtTail(domain, etld);
    LeadingDotLostAtTail(p, etld);
  }

  /** Corrected, the leading dot is lost in the same way. */
  lemma LeadingDotLostAtTail(p: string, etld: string)
    requires p != [] && p[0] == '.'
    ensures |Reassemble(DecomposeAtTail(p + "." + etld, etld))| < |p + "." + etld|
  {
    var domain := p + "." + etld;
    assert IsSuffix(etld, domain) by {
      assert domain[|domain| - |etld|..] == etld;
    }
    var kept := domain[..|domain| - |etld|];
    assert Reassemble(DecomposeAtTail(domain, etld)) == Strip(kept, IsDot) + "." + etld;
    assert kept == p + ".";
    StripLeadingDot(p);
  }

  /** `strip(".")` on a string that starts with a dot and ends with the joining dot removes both. */
  lemma StripLeadingDot(p: string)
    requires p != [] && p[0] == '.'
    ensures |Strip(p + ".", IsDot)| < |p|
  {
    RStripSnocDropped(p, '.', IsDot);
    var t := RStrip(p, IsDot);
    if t != [] {
      assert t[0] == p[0];
    }
  }
}
