/** The cursor loops of the certificate reader, writer and validator, tied to `CertificateSpec`. */
module CertificateLoops {
  import opened Machine
  import opened CertificateSpec

  function ResumeScopes(done: seq<PackageScope>, rest: Result<Taken<seq<PackageScope>>, DecodeError>):
    Result<Taken<seq<PackageScope>>, DecodeError>
  {
    if rest.Err? then rest else Ok(Taken(done + rest.value.value, rest.value.next))
  }

  lemma ScopesMore(b: Bytes, cursor: nat, n: nat, limit: nat, done: seq<PackageScope>, first: Taken<PackageScope>)
    requires limit <= |b| && n > 0 && TakeScope(b, cursor, limit) == Ok(first)
    ensures ResumeScopes(done, TakeScopes(b, cursor, n, limit))
         == ResumeScopes(done + [first.value], TakeScopes(b, first.next, n - 1, limit))
  {
    var rest := TakeScopes(b, first.next, n - 1, limit);
    if rest.Ok? { assert done + ([first.value] + rest.value.value) == done + [first.value] + rest.value.value; }
  }

  lemma ScopesNone(rest: Result<Taken<seq<PackageScope>>, DecodeError>)
    ensures ResumeScopes([], rest) == rest
  {
    if rest.Ok? { assert [] + rest.value.value == rest.value.value; }
  }

  method ReadScopes(b: Bytes, start: nat, n: nat, limit: nat) returns (r: Result<Taken<seq<PackageScope>>, DecodeError>)
    requires limit <= |b|
    ensures r == TakeScopes(b, start, n, limit)
  {
    var cursor, done: seq<PackageScope> := start, [];
    ScopesNone(TakeScopes(b, start, n, limit));
    for i := 0 to n
      invariant TakeScopes(b, start, n, limit) == ResumeScopes(done, TakeScopes(b, cursor, n - i, limit))
    {
      var next := TakeScope(b, cursor, limit);
      if next.Err? { return Err(next.error); }
      ScopesMore(b, cursor, n - i, limit, done, next.value);
      done, cursor := done + [next.value.value], next.value.next;
    }
    assert done + [] == done;
    r := Ok(Taken(done, cursor));
  }

  function ResumeTexts(done: seq<Bytes>, rest: Result<Taken<seq<Bytes>>, DecodeError>):
    Result<Taken<seq<Bytes>>, DecodeError>
  {
    if rest.Err? then rest else Ok(Taken(done + rest.value.value, rest.value.next))
  }

  lemma TextsMore(b: Bytes, cursor: nat, n: nat, limit: nat, done: seq<Bytes>, first: Taken<Bytes>)
    requires limit <= |b| && n > 0 && TakeCapability(b, cursor, limit) == Ok(first)
    ensures ResumeTexts(done, TakeCapabilities(b, cursor, n, limit))
         == ResumeTexts(done + [first.value], TakeCapabilities(b, first.next, n - 1, limit))
  {
    var rest := TakeCapabilities(b, first.next, n - 1, limit);
    if rest.Ok? { assert done + ([first.value] + rest.value.value) == done + [first.value] + rest.value.value; }
  }

  lemma TextsNone(rest: Result<Taken<seq<Bytes>>, DecodeError>)
    ensures ResumeTexts([], rest) == rest
  {
    if rest.Ok? { assert [] + rest.value.value == rest.value.value; }
  }

  method ReadCapabilities(b: Bytes, start: nat, n: nat, limit: nat)
    returns (r: Result<Taken<seq<Bytes>>, DecodeError>)
    requires limit <= |b|
    ensures r == TakeCapabilities(b, start, n, limit)
  {
    var cursor, done: seq<Bytes> := start, [];
    TextsNone(TakeCapabilities(b, start, n, limit));
    for i := 0 to n
      invariant TakeCapabilities(b, start, n, limit) == ResumeTexts(done, TakeCapabilities(b, cursor, n - i, limit))
    {
      var next := TakeCapability(b, cursor, limit);
      if next.Err? { return Err(next.error); }
      TextsMore(b, cursor, n - i, limit, done, next.value);
      done, cursor := done + [next.value.value], next.value.next;
    }
    assert done + [] == done;
    r := Ok(Taken(done, cursor));
  }

  method ReadBody(b: Bytes, limit: nat) returns (r: Result<(Bytes, seq<PackageScope>, seq<Bytes>), DecodeError>)
    requires HEADER_LEN <= limit <= |b|
    ensures r == TakeBody(b, limit)
  {
    var developer := TakeText(b, HEADER_LEN, Le(b, 136, 2), limit);
    if developer.Err? { return Err(developer.error); }
    var scopes := ReadScopes(b, developer.value.next, Le(b, 138, 2), limit);
    if scopes.Err? { return Err(scopes.error); }
    var capabilities := ReadCapabilities(b, scopes.value.next, Le(b, 140, 2), limit);
    if capabilities.Err? { return Err(capabilities.error); }
    if capabilities.value.next != limit { return Err(InvalidLength); }
    r := Ok((developer.value.value, scopes.value.value, capabilities.value.value));
  }

  lemma {:induction false} ScopesSnoc(ss: seq<PackageScope>, s: PackageScope)
    ensures EncodeScopes(ss + [s]) == EncodeScopes(ss) + EncodeScope(s)
  {
    if ss == [] {
      assert ss + [s] == [s] && [s][1..] == [];
      assert EncodeScope(s) + [] == EncodeScope(s) && [] + EncodeScope(s) == EncodeScope(s);
    } else {
      assert (ss + [s])[1..] == ss[1..] + [s];
      ScopesSnoc(ss[1..], s);
      assert EncodeScope(ss[0]) + (EncodeScopes(ss[1..]) + EncodeScope(s))
          == EncodeScope(ss[0]) + EncodeScopes(ss[1..]) + EncodeScope(s);
    }
  }

  lemma {:induction false} TextsSnoc(ts: seq<Bytes>, t: Bytes)
    ensures EncodeTexts(ts + [t]) == EncodeTexts(ts) + EncodeText(t)
  {
    if ts == [] {
      assert ts + [t] == [t] && [t][1..] == [];
      assert EncodeText(t) + [] == EncodeText(t) && [] + EncodeText(t) == EncodeText(t);
    } else {
      assert (ts + [t])[1..] == ts[1..] + [t];
      TextsSnoc(ts[1..], t);
      assert EncodeText(ts[0]) + (EncodeTexts(ts[1..]) + EncodeText(t))
          == EncodeText(ts[0]) + EncodeTexts(ts[1..]) + EncodeText(t);
    }
  }

  /** The variable part, written item by item after what is already in the buffer. */
  method WriteBody(c: Certificate, prefix: Bytes) returns (out: Bytes)
    ensures out == prefix + EncodeBody(c)
  {
    out := prefix + c.developerId;
    ghost var start := out;
    for i := 0 to |c.scopes|
      invariant out == start + EncodeScopes(c.scopes[..i])
    {
      ScopesSnoc(c.scopes[..i], c.scopes[i]);
      assert c.scopes[..i + 1] == c.scopes[..i] + [c.scopes[i]];
      Regrouped(start, EncodeScopes(c.scopes[..i]), EncodeScope(c.scopes[i]));
      out := out + EncodeScope(c.scopes[i]);
    }
    assert c.scopes[..|c.scopes|] == c.scopes;
    ghost var middle := out;
    for i := 0 to |c.capabilities|
      invariant out == middle + EncodeTexts(c.capabilities[..i])
    {
      TextsSnoc(c.capabilities[..i], c.capabilities[i]);
      assert c.capabilities[..i + 1] == c.capabilities[..i] + [c.capabilities[i]];
      Regrouped(middle, EncodeTexts(c.capabilities[..i]), EncodeText(c.capabilities[i]));
      out := out + EncodeText(c.capabilities[i]);
    }
    assert c.capabilities[..|c.capabilities|] == c.capabilities;
    Regrouped(prefix, c.developerId, EncodeScopes(c.scopes));
    Regrouped(prefix, c.developerId + EncodeScopes(c.scopes), EncodeTexts(c.capabilities));
  }

  method ValidateScopes(ss: seq<PackageScope>) returns (bad: Option<ValidationError>)
    ensures bad == CheckScopes(ss, 0)
  {
    for i := 0 to |ss|
      invariant CheckScopes(ss, i) == CheckScopes(ss, 0)
    {
      if !PackageIdOk(ss[i].packageId) { return Some(InvalidPackageScope); }
      if i > 0 && ss[i - 1] == ss[i] { return Some(DuplicatePackageScope); }
      if i > 0 && !ScopeLess(ss[i - 1], ss[i]) { return Some(UnsortedPackageScopes); }
    }
    bad := None;
  }

  method ValidateCapabilities(cs: seq<Bytes>) returns (bad: Option<ValidationError>)
    ensures bad == CheckCapabilities(cs, 0)
  {
    for i := 0 to |cs|
      invariant CheckCapabilities(cs, i) == CheckCapabilities(cs, 0)
    {
      if !CapabilityOk(cs[i]) { return Some(InvalidCapability); }
      if i > 0 && cs[i - 1] == cs[i] { return Some(DuplicateAllowedCapability); }
      if i > 0 && !Less(cs[i - 1], cs[i]) { return Some(UnsortedAllowedCapabilities); }
    }
    bad := None;
  }
}
