/** The declared-prefix set: the keys the namespace manager reports in
    scope after the detector registers the document's declarations. */
module Scope {

  /** The prefix the detector binds to the XAML presentation namespace. */
  const PresentationPrefix := "def"
  const PresentationNamespace := "http://schemas.microsoft.com/winfx/2006/xaml/presentation"

  /** The manager's built-in binding, always reported in scope. */
  const XmlPrefix := "xml"
  const XmlNamespace := "http://www.w3.org/XML/1998/namespace"

  /** One namespace declaration found in the document, with whether the
      manager accepted its registration (the manager's checks are not
      modelled; their outcome is given). */
  datatype Registration = Registration(prefix: string, uri: string, accepted: bool)

  /** One registration step: a rejected one is skipped; an accepted one
      puts its prefix in scope, except that the empty prefix bound to the
      empty URI takes the default namespace out of scope. */
  function Register(keys: set<string>, reg: Registration): (r: set<string>)
    ensures forall p :: p != reg.prefix ==> (p in r <==> p in keys)
    ensures !reg.accepted ==> r == keys
    ensures reg.accepted && reg.prefix != "" ==> reg.prefix in r
    ensures reg.accepted && reg.prefix == "" ==> ("" in r <==> reg.uri != "")
  {
    if !reg.accepted then keys
    else if reg.prefix == "" && reg.uri == "" then keys - {""}
    else keys + {reg.prefix}
  }

  function RegisterAll(keys: set<string>, regs: seq<Registration>): (r: set<string>)
    ensures forall p :: p in keys && p != "" ==> p in r
    ensures forall p :: p in r && p != "" ==>
      p in keys || exists k :: 0 <= k < |regs| && regs[k].accepted && regs[k].prefix == p
    decreases |regs|
  {
    if regs == [] then keys
    else
      var r := RegisterAll(Register(keys, regs[0]), regs[1..]);
      assert forall k :: 1 <= k < |regs| ==> regs[k] == regs[1..][k - 1];
      r
  }

  /** The declared prefixes: the built-in `xml`, then `def`, then every
      accepted declaration. */
  function DeclaredPrefixes(regs: seq<Registration>): (r: set<string>)
    ensures PresentationPrefix in r && XmlPrefix in r
  {
    RegisterAll({XmlPrefix, PresentationPrefix}, regs)
  }

  lemma {:induction false} AcceptedIsRegistered(keys: set<string>, regs: seq<Registration>, k: int)
    requires 0 <= k < |regs| && regs[k].accepted && regs[k].prefix != ""
    ensures regs[k].prefix in RegisterAll(keys, regs)
    decreases |regs|
  {
    if k > 0 {
      AcceptedIsRegistered(Register(keys, regs[0]), regs[1..], k - 1);
    }
  }

  /** A non-empty prefix is declared exactly when it is `xml`, `def`, or the
      prefix of an accepted declaration. */
  lemma {:induction false} DeclaredPrefixesMembers(regs: seq<Registration>, p: string)
    requires p != ""
    ensures p in DeclaredPrefixes(regs) <==>
      p == XmlPrefix || p == PresentationPrefix ||
      exists k :: 0 <= k < |regs| && regs[k].accepted && regs[k].prefix == p
  {
    if exists k :: 0 <= k < |regs| && regs[k].accepted && regs[k].prefix == p {
      var k :| 0 <= k < |regs| && regs[k].accepted && regs[k].prefix == p;
      AcceptedIsRegistered({XmlPrefix, PresentationPrefix}, regs, k);
    }
  }

  lemma {:induction false} RegisterAllAppend(keys: set<string>, a: seq<Registration>, b: seq<Registration>)
    ensures RegisterAll(keys, a + b) == RegisterAll(RegisterAll(keys, a), b)
    decreases |a|
  {
    if a == [] {
      assert a + b == b;
    } else {
      assert (a + b)[0] == a[0] && (a + b)[1..] == a[1..] + b;
      RegisterAllAppend(Register(keys, a[0]), a[1..], b);
    }
  }

  /** A rejected registration is skipped without affecting the others. */
  lemma {:induction false} RejectedRegistrationIsSkipped(before: seq<Registration>, reg: Registration, after: seq<Registration>)
    requires !reg.accepted
    ensures DeclaredPrefixes(before + [reg] + after) == DeclaredPrefixes(before + after)
  {
    var seed := {XmlPrefix, PresentationPrefix};
    RegisterAllAppend(seed, before + [reg], after);
    RegisterAllAppend(seed, before, [reg]);
    RegisterAllAppend(seed, before, after);
    assert RegisterAll(RegisterAll(seed, before), [reg]) == RegisterAll(seed, before) by {
      assert [reg][1..] == [];
    }
  }
}
