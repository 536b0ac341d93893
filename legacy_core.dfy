/**
 The older release of the engine (build/lib/fast_psl/core.py). Its
 `get_public_suffix` and `get_public_suffix_parts` are the same as in the
 current release and are modelled by `Core.PublicSuffixList`; what differs is
 the constructor, which runs the rule normaliser inline instead of calling a
 separate method.
 */
module LegacyCore {
  import opened Wrappers
  import opened PyStr
  import opened Helpers
  import opened Trie
  import opened Core

  /** `PublicSuffixList.__init__` with the list text already loaded: cut to the ICANN block in strict mode, keep the rule lines, add the differing punycode forms, reverse, build the trie. */
  method NewPublicSuffixList(text: string, strict: bool, markers: SectionMarkers, codec: Codec) returns (r: Result<PublicSuffixList>)
    ensures ProcessPslText(text, strict, markers, codec).Failure? ==>
      r == Failure(ProcessPslText(text, strict, markers, codec).error)
    ensures ProcessPslText(text, strict, markers, codec).Success? ==>
      && r.Success? && fresh(r.value)
      && r.value.strict == strict
      && r.value.publicSuffixes == KeySet(ProcessPslText(text, strict, markers, codec).value)
    ensures r.Success? ==> SourceText(text, strict, markers).Success?
    ensures r.Success? ==> forall k :: k in r.value.publicSuffixes <==>
      exists line :: line in Split(SourceText(text, strict, markers).value, "\n") && IsRule(line) && IsKeyOf(k, line, codec)
  {
    var pslText := text;
    if strict {
      var block := FilterPublicOrPrivateBlock(text, true, markers);
      if block.Failure? {
        return Failure(block.error);
      }
      pslText := block.value;
    }
    var lines := Split(pslText, "\n");
    var domains := KeptLines(lines);
    var punycode := PunycodeForms(domains, codec);
    if punycode.Failure? {
      return Failure(punycode.error);
    }
    var rules := domains;
    domains := domains + punycode.value;
    domains := ReverseAll(domains);
    KeysOfRules(lines, rules, punycode.value, domains, codec);
    var psl := new PublicSuffixList(strict, domains);
    return Success(psl);
  }
}
