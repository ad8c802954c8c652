/** Hostname labels: which ones may be claimed, and how a fully qualified
    hostname splits into a label under the relay's apex. */
module Labels {
  import opened Prelude

  datatype LabelError = BadLength | BadEdge | BadCharacter | Reserved

  const RESERVED_LABELS: set<string> :=
    {"connect", "www", "admin", "api", "docs", "status", "mail"}

  predicate IsLowerAlnum(c: char) {
    'a' <= c <= 'z' || '0' <= c <= '9'
  }

  /** The checks in the order the registry makes them; `None` means accepted. */
  function ValidateLabel(name: string): (r: Option<LabelError>) {
    if |name| == 0 || |name| > 63 then Some(BadLength)
    else if !IsLowerAlnum(name[0]) || !IsLowerAlnum(name[|name| - 1]) then Some(BadEdge)
    else if exists i :: 0 <= i < |name| && !IsLowerAlnum(name[i]) && name[i] != '-' then Some(BadCharacter)
    else if name in RESERVED_LABELS then Some(Reserved)
    else None
  }

  predicate ValidLabel(name: string) {
    ValidateLabel(name).None?
  }

  function Suffix(domain: string): string {
    "." + domain
  }

  function Fqdn(domain: string, name: string): string {
    name + Suffix(domain)
  }

  predicate EndsWith(s: string, tail: string) {
    |tail| <= |s| && s[|s| - |tail|..] == tail
  }

  /** The label of a hostname directly under the apex, if it is claimable. */
  function LabelOf(domain: string, fqdn: string): (r: Option<string>) {
    var tail := Suffix(domain);
    if !EndsWith(fqdn, tail) then None
    else
      var name := fqdn[..|fqdn| - |tail|];
      if |name| == 0 || '.' in name then None
      else if !ValidLabel(name) then None
      else Some(name)
  }

  function LowerChar(c: char): char {
    if 'A' <= c <= 'Z' then ((c as int) - ('A' as int) + ('a' as int)) as char else c
  }

  /** ASCII lower-casing, applied to every hostname a daemon sends. */
  function Lower(s: string): (r: string)
    ensures |r| == |s|
    ensures forall i :: 0 <= i < |s| ==> r[i] == LowerChar(s[i])
  {
    seq(|s|, i requires 0 <= i < |s| => LowerChar(s[i]))
  }

  function LowerAll(hosts: seq<string>): (r: seq<string>)
    ensures |r| == |hosts|
    ensures forall i :: 0 <= i < |hosts| ==> r[i] == Lower(hosts[i])
  {
    seq(|hosts|, i requires 0 <= i < |hosts| => Lower(hosts[i]))
  }

  /** The same letter, in either case. */
  predicate SameLetter(a: char, b: char) {
    || a == b
    || ('A' <= a <= 'Z' && (b as int) == (a as int) + 32)
    || ('A' <= b <= 'Z' && (a as int) == (b as int) + 32)
  }

  predicate SameIgnoringCase(s: string, t: string) {
    |s| == |t| && forall i :: 0 <= i < |s| ==> SameLetter(s[i], t[i])
  }

  /** Lower-casing identifies exactly the names that differ only in the case of
      ASCII letters, and leaves no upper-case letter. */
  lemma LowerIff(s: string, t: string)
    ensures Lower(s) == Lower(t) <==> SameIgnoringCase(s, t)
    ensures forall c :: c in Lower(s) ==> !('A' <= c <= 'Z')
  {
    if Lower(s) == Lower(t) {
      forall i | 0 <= i < |s| ensures SameLetter(s[i], t[i]) {
        assert Lower(s)[i] == Lower(t)[i];
      }
    }
  }

  /** The checks together accept exactly the single lower-case DNS labels that
      are not reserved: one to 63 letters, digits and hyphens, with no hyphen at
      either end. */
  lemma ValidLabelIff(name: string)
    ensures ValidLabel(name) <==>
            && 1 <= |name| <= 63
            && (forall c :: c in name ==> IsLowerAlnum(c) || c == '-')
            && name[0] != '-' && name[|name| - 1] != '-'
            && name !in RESERVED_LABELS
  {
  }

  /** Which fault is reported: the length first, then the ends, then the inner
      characters, and reserved only for a label that is otherwise in order. */
  lemma LabelErrorIff(name: string)
    ensures var length := 1 <= |name| <= 63;
            var ends := length && IsLowerAlnum(name[0]) && IsLowerAlnum(name[|name| - 1]);
            var inner := forall c :: c in name ==> IsLowerAlnum(c) || c == '-';
            && (ValidateLabel(name) == Some(BadLength) <==> !length)
            && (ValidateLabel(name) == Some(BadEdge) <==> length && !ends)
            && (ValidateLabel(name) == Some(BadCharacter) <==> ends && !inner)
            && (ValidateLabel(name) == Some(Reserved) <==> ends && inner && name in RESERVED_LABELS)
  {
  }

  /** Splitting inverts composing, in both directions and for every apex:
      a hostname has label `l` exactly when it is `l` composed with the apex
      and `l` is claimable. */
  lemma LabelOfInvertsFqdn(domain: string, fqdn: string, name: string)
    ensures LabelOf(domain, fqdn) == Some(name) <==> fqdn == Fqdn(domain, name) && ValidLabel(name)
  {
  }

  /** A claimable hostname is already lower-case under a lower-case apex, so the
      lower-casing of requests loses nothing the registry would have accepted. */
  lemma ClaimableIsLowerCase(domain: string, fqdn: string)
    requires LabelOf(domain, fqdn).Some?
    requires Lower(domain) == domain
    ensures Lower(fqdn) == fqdn
  {
  }
}
