/** The email field of a member request: the validator rewrites an address
    before it is stored, and the stored form is what the unique constraint
    compares. Spaces around the address are removed and the domain, the part
    after the last '@', is lowercased. */
module Emails {
  import opened Models

  predicate IsSpace(c: char)
  {
    c == ' ' || c == '\t' || c == '\n' || c == '\r'
  }

  /** `s` without its leading spaces. */
  function TrimStart(s: string): (r: string)
    ensures r == [] || !IsSpace(r[0])
  {
    if s != [] && IsSpace(s[0]) then TrimStart(s[1..]) else s
  }

  /** `s` without its trailing spaces. */
  function TrimEnd(s: string): (r: string)
    ensures |r| <= |s| && r == s[..|r|]
    ensures r == [] || !IsSpace(r[|r| - 1])
  {
    if s != [] && IsSpace(s[|s| - 1]) then TrimEnd(s[..|s| - 1]) else s
  }

  function Trim(s: string): string
  {
    TrimEnd(TrimStart(s))
  }

  function LowerChar(c: char): char
  {
    if 'A' <= c <= 'Z' then (c as int + 32) as char else c
  }

  /** `s` with its ASCII capitals lowercased: no ASCII capital is left, and
      each character is the one given or its lower-case letter. */
  function Lower(s: string): (r: string)
    ensures |r| == |s|
    ensures forall i :: 0 <= i < |r| ==> !('A' <= r[i] <= 'Z')
    ensures forall i :: 0 <= i < |s| ==>
      r[i] == s[i] || ('A' <= s[i] <= 'Z' && r[i] as int == s[i] as int + 32)
  {
    seq(|s|, i requires 0 <= i < |s| => LowerChar(s[i]))
  }

  /** The position of the last '@' in `s`, if any. */
  function LastAt(s: string): (r: Option<nat>)
    ensures r.Some? ==>
      r.value < |s| && s[r.value] == '@' && forall j :: r.value < j < |s| ==> s[j] != '@'
    ensures r.None? ==> forall j :: 0 <= j < |s| ==> s[j] != '@'
  {
    if s == [] then None
    else if s[|s| - 1] == '@' then Some(|s| - 1)
    else LastAt(s[..|s| - 1])
  }

  /** The address as stored, or None when no '@' separates a non-empty
      local part from a non-empty domain. */
  function Normalize(raw: string): (r: Option<string>)
  {
    var t := Trim(raw);
    match LastAt(t)
    case None => None
    case Some(i) =>
      if i == 0 || i == |t| - 1 then None
      else Some(t[..i + 1] + Lower(t[i + 1..]))
  }

  /** A string that neither starts nor ends with a space is its own trim. */
  lemma TrimOfTrimmed(s: string)
    requires s != [] && !IsSpace(s[0]) && !IsSpace(s[|s| - 1])
    ensures Trim(s) == s
  {
    assert TrimStart(s) == s;
  }

  /** A non-empty trimmed string neither starts nor ends with a space. */
  lemma TrimmedEnds(raw: string)
    requires Trim(raw) != []
    ensures !IsSpace(Trim(raw)[0]) && !IsSpace(Trim(raw)[|Trim(raw)| - 1])
  {
    var u := TrimStart(raw);
    assert Trim(raw) == u[..|Trim(raw)|];
    assert Trim(raw)[0] == u[0];
  }

  /** Lowercasing keeps spaces and '@' as they are and is idempotent. */
  lemma LowerCharFacts(c: char)
    ensures IsSpace(LowerChar(c)) <==> IsSpace(c)
    ensures LowerChar(c) == '@' <==> c == '@'
    ensures LowerChar(LowerChar(c)) == LowerChar(c)
  {
  }

  lemma LowerIdempotent(s: string)
    ensures Lower(Lower(s)) == Lower(s)
  {
    forall i | 0 <= i < |s| ensures Lower(Lower(s))[i] == Lower(s)[i] {
      LowerCharFacts(s[i]);
    }
  }

  /** Lowercasing adds no '@' and no space at the end. */
  lemma LowerKeepsShape(d: string)
    requires forall j :: 0 <= j < |d| ==> d[j] != '@'
    ensures forall j :: 0 <= j < |d| ==> Lower(d)[j] != '@'
    ensures d != [] && !IsSpace(d[|d| - 1]) ==> !IsSpace(Lower(d)[|d| - 1])
  {
    forall j | 0 <= j < |d| ensures Lower(d)[j] != '@' {
      LowerCharFacts(d[j]);
    }
    if d != [] {
      LowerCharFacts(d[|d| - 1]);
    }
  }

  /** The last '@' is the only '@' that has none after it. */
  lemma LastAtIs(s: string, i: nat)
    requires i < |s| && s[i] == '@'
    requires forall j :: i < j < |s| ==> s[j] != '@'
    ensures LastAt(s) == Some(i)
  {
    assert s[i] == '@';
  }

  /** An accepted address is a plain `local@domain`, stored with the
      domain lowercased. */
  lemma NormalizedParts(raw: string) returns (local: string, domain: string)
    requires Normalize(raw).Some?
    ensures PlainAddress(local, domain)
    ensures Normalize(raw) == Some(local + "@" + Lower(domain))
  {
    var t := Trim(raw);
    var i := LastAt(t).value;
    local, domain := t[..i], t[i + 1..];
    assert t[..i + 1] == local + "@";
    TrimmedEnds(raw);
    assert local[0] == t[0] && domain[|domain| - 1] == t[|t| - 1];
    forall j | 0 <= j < |domain| ensures domain[j] != '@' {
      assert domain[j] == t[i + 1 + j];
    }
  }

  /** Storing an address twice stores it once: a stored address is
      accepted and left as it is. */
  lemma NormalizeIdempotent(raw: string)
    requires Normalize(raw).Some?
    ensures Normalize(Normalize(raw).value) == Normalize(raw)
  {
    var local, domain := NormalizedParts(raw);
    LowerKeepsShape(domain);
    NormalizeSplit(local, Lower(domain));
    LowerIdempotent(domain);
  }

  /** A local part that does not start with a space and a domain that has
      no '@' and does not end with a space: `local@domain` is an address as
      the user meant it. */
  predicate PlainAddress(local: string, domain: string)
  {
    && local != [] && !IsSpace(local[0])
    && domain != [] && !IsSpace(domain[|domain| - 1])
    && forall j :: 0 <= j < |domain| ==> domain[j] != '@'
  }

  /** An address made of a local part, '@' and a domain without '@' is
      stored with its local part as given and its domain lowercased, so two
      domains that differ only in case give the same stored address. */
  lemma NormalizeSplit(local: string, domain: string)
    requires PlainAddress(local, domain)
    ensures Normalize(local + "@" + domain) == Some(local + "@" + Lower(domain))
  {
    var e := local + "@" + domain;
    var i := |local|;
    assert e[0] == local[0] && e[|e| - 1] == domain[|domain| - 1];
    TrimOfTrimmed(e);
    forall j | i < j < |e| ensures e[j] != '@' {
      assert e[j] == domain[j - i - 1];
    }
    LastAtIs(e, i);
    assert e[..i + 1] == local + "@";
    assert e[i + 1..] == domain;
  }

  /** Spaces before an address are not part of it. */
  lemma NormalizeIgnoresLeadingSpace(raw: string)
    ensures Normalize(" " + raw) == Normalize(raw)
  {
    assert (" " + raw)[1..] == raw;
    assert TrimStart(" " + raw) == TrimStart(raw);
  }

  /** Two domains that differ only in ASCII letter case, with spaces before the
      second address, give one stored address. */
  lemma DomainCaseIgnored(local: string, domain: string, other: string)
    requires PlainAddress(local, domain) && PlainAddress(local, other)
    requires Lower(domain) == Lower(other)
    ensures Normalize(" " + (local + "@" + other)) == Normalize(local + "@" + domain)
    ensures Normalize(local + "@" + domain) == Some(local + "@" + Lower(domain))
  {
    NormalizeSplit(local, domain);
    NormalizeSplit(local, other);
    NormalizeIgnoresLeadingSpace(local + "@" + other);
  }
}
