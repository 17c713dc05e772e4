/** Prefix extraction from a qualified name `Prefix ':' LocalPart`
    (section 4 of Namespaces in XML 1.0), done the way the detector does
    it: `name.Split(":")[0]`. */
module QName {
  import opened Text

  /** Whether a name or value has a prefix to extract. */
  predicate IsQualified(s: string) {
    ':' in s
  }

  /** The text before the first `:`, or the whole string when there is none. */
  function PrefixOf(s: string): (p: string)
    ensures ':' !in p
    ensures p <= s
    ensures IsQualified(s) ==> p + [':'] <= s
    ensures !IsQualified(s) ==> p == s
  {
    var p := Split(s, ':')[0];
    if IsQualified(s) then
      FirstPieceThenSeparator(s, ':');
      p
    else
      SplitWithoutSeparator(s, ':');
      p
  }

  /** Writes a qualified name from its two parts. */
  function Qualify(prefix: string, local: string): string {
    prefix + [':'] + local
  }

  /** Extraction inverts `Qualify` for every colon-free prefix, whatever
      the local part holds (later colons included). */
  lemma {:induction false} QualifiedPrefixRoundTrip(prefix: string, local: string)
    requires ':' !in prefix
    ensures IsQualified(Qualify(prefix, local))
    ensures PrefixOf(Qualify(prefix, local)) == prefix
  {
    var s := Qualify(prefix, local);
    assert s[|prefix|] == ':';
    SplitAtFirstSeparator(prefix, ':', local);
  }

  /** Every qualified string is its prefix, a colon, and a remainder. */
  lemma {:induction false} QualifiedDecomposes(s: string)
    requires IsQualified(s)
    ensures Qualify(PrefixOf(s), s[|PrefixOf(s)| + 1..]) == s
  {
    var p := PrefixOf(s);
    assert s == s[..|p| + 1] + s[|p| + 1..];
  }
}
