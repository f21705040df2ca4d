/**
 src/server/AuthInterceptor.cc: the bearer-token processor, and the provider's call metadata
 (prv/remsvc_provider/hooks/remsvc.py, prv/remsvc_provider/triggers/remsvc.py) that must satisfy it.
 */
module Auth {
  import opened Common
  import opened Ordering

  /** "authorization" */
  const AUTH_HEADER: Bytes :=
    [0x61, 0x75, 0x74, 0x68, 0x6F, 0x72, 0x69, 0x7A, 0x61, 0x74, 0x69, 0x6F, 0x6E]

  /** "Bearer " */
  const BEARER_PREFIX: Bytes := [0x42, 0x65, 0x61, 0x72, 0x65, 0x72, 0x20]

  /** "x-remsvc-identity" */
  const IDENTITY_KEY: Bytes :=
    [0x78, 0x2D, 0x72, 0x65, 0x6D, 0x73, 0x76, 0x63, 0x2D, 0x69, 0x64, 0x65, 0x6E, 0x74, 0x69, 0x74, 0x79]

  type Metadata = seq<(Bytes, Bytes)>

  // ----- map inversion ------------------------------------------------------------------------

  /** Some identity is configured with this token, and the token is not empty. */
  ghost predicate Configured(identities: map<Bytes, Bytes>, token: Bytes) {
    token != [] && exists i :: i in identities && identities[i] == token
  }

  /** i is the first identity, in the map's order, that owns the token. */
  ghost predicate FirstOwner(identities: map<Bytes, Bytes>, le: (Bytes, Bytes) -> bool, token: Bytes, i: Bytes) {
    && i in identities && identities[i] == token
    && forall j | j in identities && identities[j] == token :: le(i, j)
  }

  /** tokens maps exactly the configured tokens, each to its first owner. */
  ghost predicate Inverts(tokens: map<Bytes, Bytes>, identities: map<Bytes, Bytes>, le: (Bytes, Bytes) -> bool) {
    && (forall t :: t in tokens <==> Configured(identities, t))
    && forall t | t in tokens :: FirstOwner(identities, le, t, tokens[t])
  }

  // ----- what the processor decides -----------------------------------------------------------------

  datatype Verdict = Disabled | Accepted(identity: Bytes) | MissingHeader | WrongScheme | UnknownToken

  /** The header a lookup finds. */
  function Find(md: Metadata, key: Bytes): Option<Bytes> {
    if md == [] then None else if md[0].0 == key then Some(md[0].1) else Find(md[1..], key)
  }

  /** The token of a header with the Bearer scheme. */
  function BearerToken(value: Bytes): Option<Bytes> {
    if |value| >= |BEARER_PREFIX| && value[..|BEARER_PREFIX|] == BEARER_PREFIX
    then Some(value[|BEARER_PREFIX|..])
    else None
  }

  /** The decision in terms of the configuration, not of the inverted map. */
  ghost predicate Decides(identities: map<Bytes, Bytes>, le: (Bytes, Bytes) -> bool, md: Metadata, v: Verdict) {
    match v
    case Disabled => forall t :: !Configured(identities, t)
    case _ =>
      && (exists t :: Configured(identities, t))
      && match Find(md, AUTH_HEADER)
         case None => v == MissingHeader
         case Some(value) =>
           match BearerToken(value)
           case None => v == WrongScheme
           case Some(token) =>
             if Configured(identities, token)
             then v.Accepted? && FirstOwner(identities, le, token, v.identity)
             else v == UnknownToken
  }

  /** The lookup finds the first entry with the key. */
  lemma {:induction false} FindsFirst(md: Metadata, key: Bytes)
    ensures Find(md, key).None? <==> forall i | 0 <= i < |md| :: md[i].0 != key
    ensures Find(md, key).Some? ==>
              exists i :: 0 <= i < |md| && md[i] == (key, Find(md, key).value)
                          && forall j | 0 <= j < i :: md[j].0 != key
    decreases |md|
  {
    if md == [] {
    } else {
      FindsFirst(md[1..], key);
      if md[0].0 == key {
        assert md[0] == (key, Find(md, key).value);
      } else if Find(md, key).Some? {
        var i :| 0 <= i < |md| - 1 && md[1..][i] == (key, Find(md, key).value)
                 && forall j | 0 <= j < i :: md[1..][j].0 != key;
        assert md[i + 1] == (key, Find(md, key).value);
        forall j | 0 <= j < i + 1
          ensures md[j].0 != key
        {
          assert j > 0 ==> md[j] == md[1..][j - 1];
        }
      }
    }
  }

  lemma BearerRoundTrip(token: Bytes)
    ensures BearerToken(BEARER_PREFIX + token) == Some(token)
    ensures forall value :: BearerToken(value) == Some(token) ==> value == BEARER_PREFIX + token
  {
    forall value | BearerToken(value) == Some(token)
      ensures value == BEARER_PREFIX + token
    {
      assert value == value[..|BEARER_PREFIX|] + value[|BEARER_PREFIX|..];
    }
  }

  /** A call gets through exactly when no token is configured or its header is "Bearer " and a
      configured token; it is then stamped with the first identity that owns the token. */
  lemma AcceptsExactly(identities: map<Bytes, Bytes>, le: (Bytes, Bytes) -> bool, md: Metadata, v: Verdict)
    requires TotalOrder(le) && Decides(identities, le, md, v)
    ensures v.Disabled? || v.Accepted? <==>
            (forall t :: !Configured(identities, t))
            || exists t :: Configured(identities, t) && Find(md, AUTH_HEADER) == Some(BEARER_PREFIX + t)
    ensures forall t, i | Find(md, AUTH_HEADER) == Some(BEARER_PREFIX + t) && Configured(identities, t)
                          && FirstOwner(identities, le, t, i) :: v == Accepted(i)
  {
    if v.Accepted? {
      var value := Find(md, AUTH_HEADER).value;
      BearerRoundTrip(BearerToken(value).value);
    }
    forall t | Configured(identities, t) && Find(md, AUTH_HEADER) == Some(BEARER_PREFIX + t)
      ensures v.Accepted? && FirstOwner(identities, le, t, v.identity)
    {
      BearerRoundTrip(t);
    }
  }

  /** Every other call is turned away, for the first of three reasons that applies. */
  lemma RejectsExactly(identities: map<Bytes, Bytes>, le: (Bytes, Bytes) -> bool, md: Metadata, v: Verdict)
    requires Decides(identities, le, md, v) && !v.Disabled?
    ensures v == MissingHeader <==> Find(md, AUTH_HEADER) == None
    ensures v == WrongScheme <==>
              && Find(md, AUTH_HEADER).Some?
              && forall t :: Find(md, AUTH_HEADER).value != BEARER_PREFIX + t
    ensures v == UnknownToken <==>
              exists t :: Find(md, AUTH_HEADER) == Some(BEARER_PREFIX + t) && !Configured(identities, t)
  {
    if Find(md, AUTH_HEADER).Some? {
      var value := Find(md, AUTH_HEADER).value;
      if BearerToken(value).Some? {
        BearerRoundTrip(BearerToken(value).value);
        assert Find(md, AUTH_HEADER) == Some(BEARER_PREFIX + BearerToken(value).value);
      }
      forall t | value == BEARER_PREFIX + t
        ensures BearerToken(value) == Some(t)
      {
        BearerRoundTrip(t);
      }
    }
  }

  // ----- the processor -----------------------------------------------------------------------------------

  lemma XorAccumulates(diff: bv8, x: bv8, y: bv8)
    ensures diff | (x ^ y) == 0 <==> diff == 0 && x == y
  {
  }

  /** constTimeEqual: every byte pair is looked at, and the answer is equality. */
  method ConstTimeEqual(a: Bytes, b: Bytes) returns (equal: bool)
    ensures equal <==> a == b
  {
    if |a| != |b| {
      return false;
    }
    var diff: bv8 := 0;
    var i := 0;
    while i < |a|
      invariant 0 <= i <= |a|
      invariant diff == 0 <==> a[..i] == b[..i]
    {
      XorAccumulates(diff, a[i], b[i]);
      assert a[..i + 1] == a[..i] + [a[i]] && b[..i + 1] == b[..i] + [b[i]];
      diff := diff | (a[i] ^ b[i]);
      i := i + 1;
    }
    assert a[..i] == a && b[..i] == b;
    return diff == 0;
  }

  /** grpc::AuthContext together with the metadata the processor marks as consumed. */
  class AuthContext {
    var properties: Metadata
    var peerIdentityName: Option<Bytes>
    var consumed: Metadata

    constructor ()
      ensures properties == [] && peerIdentityName == None && consumed == []
    {
      properties, peerIdentityName, consumed := [], None, [];
    }
  }

  /** The inversion of the entries that are not in rest. */
  ghost predicate InvertsBelow(tokens: map<Bytes, Bytes>, identities: map<Bytes, Bytes>,
                               le: (Bytes, Bytes) -> bool, rest: set<Bytes>)
  {
    && (forall t :: t in tokens <==> t != [] && exists i :: i in identities && i !in rest && identities[i] == t)
    && (forall t | t in tokens ::
          && tokens[t] in identities && tokens[t] !in rest && identities[tokens[t]] == t
          && forall j | j in identities && j !in rest && identities[j] == t :: le(tokens[t], j))
    && (forall i, j | i in identities && i !in rest && j in rest :: le(i, j))
  }

  lemma InvertsNext(tokens: map<Bytes, Bytes>, identities: map<Bytes, Bytes>,
                    le: (Bytes, Bytes) -> bool, rest: set<Bytes>, identity: Bytes)
    requires TotalOrder(le) && rest <= identities.Keys && InvertsBelow(tokens, identities, le, rest)
    requires IsLeast(rest, le, identity)
    ensures var token := identities[identity];
            InvertsBelow(if token != [] && token !in tokens then tokens[token := identity] else tokens,
                         identities, le, rest - {identity})
  {
  }

  class BearerTokenAuthProcessor {
    var tokens: map<Bytes, Bytes>

    /** The loop takes the identities in the map's order, and emplace keeps the first owner. */
    constructor (identities: map<Bytes, Bytes>, le: (Bytes, Bytes) -> bool)
      requires TotalOrder(le)
      ensures Inverts(tokens, identities, le)
    {
      tokens := map[];
      new;
      var rest := identities.Keys;
      while rest != {}
        invariant rest <= identities.Keys
        invariant InvertsBelow(tokens, identities, le, rest)
        decreases |rest|
      {
        LeastExists(rest, le);
        var identity :| identity in rest && forall k | k in rest :: le(identity, k);
        var token := identities[identity];
        InvertsNext(tokens, identities, le, rest, identity);
        if token != [] && token !in tokens {
          tokens := tokens[token := identity];
        }
        rest := rest - {identity};
      }
    }

    /** Every stored token is compared, without stopping at a match. */
    method FullScan(token: Bytes) returns (identity: Option<Bytes>)
      ensures identity == if token in tokens then Some(tokens[token]) else None
    {
      identity := None;
      var rest := tokens.Keys;
      while rest != {}
        invariant rest <= tokens.Keys
        invariant identity == if token in tokens && token !in rest then Some(tokens[token]) else None
        decreases |rest|
      {
        var stored :| stored in rest;
        rest := rest - {stored};
        var equal := ConstTimeEqual(token, stored);
        if equal {
          identity := Some(tokens[stored]);
        }
      }
    }

    /** What Process decides; see Process for what it writes. */
    method Decide(ghost identities: map<Bytes, Bytes>, ghost le: (Bytes, Bytes) -> bool, md: Metadata)
      returns (v: Verdict)
      requires TotalOrder(le) && Inverts(tokens, identities, le)
      ensures Decides(identities, le, md, v)
    {
      if tokens == map[] {
        assert forall t :: !Configured(identities, t) by {
          assert forall t :: t !in tokens;
        }
        return Disabled;
      }
      ghost var some :| some in tokens;
      assert Configured(identities, some);
      var header := Find(md, AUTH_HEADER);
      if header.None? {
        return MissingHeader;
      }
      var value := header.value;
      if |value| < |BEARER_PREFIX| || value[..|BEARER_PREFIX|] != BEARER_PREFIX {
        return WrongScheme;
      }
      var token := value[|BEARER_PREFIX|..];
      var identity := FullScan(token);
      if identity.None? {
        return UnknownToken;
      }
      return Accepted(identity.value);
    }

    /** Process: an accepted call has its identity stamped on the context and its header consumed;
        any other leaves both as they were. */
    method Process(ghost identities: map<Bytes, Bytes>, ghost le: (Bytes, Bytes) -> bool, md: Metadata,
                   context: AuthContext) returns (v: Verdict)
      requires TotalOrder(le) && Inverts(tokens, identities, le)
      modifies context
      ensures Decides(identities, le, md, v)
      ensures v.Accepted? ==>
                && Find(md, AUTH_HEADER).Some?
                && context.properties == old(context.properties) + [(IDENTITY_KEY, v.identity)]
                && context.peerIdentityName == Some(IDENTITY_KEY)
                && context.consumed == old(context.consumed) + [(AUTH_HEADER, Find(md, AUTH_HEADER).value)]
      ensures !v.Accepted? ==> unchanged(context)
    {
      v := Decide(identities, le, md);
      if v.Accepted? {
        context.properties := context.properties + [(IDENTITY_KEY, v.identity)];
        context.peerIdentityName := Some(IDENTITY_KEY);
        context.consumed := context.consumed + [(AUTH_HEADER, Find(md, AUTH_HEADER).value)];
      }
    }
  }

  // ----- the provider's metadata ----------------------------------------------------------------------------

  function LowerByte(b: bv8): bv8 {
    if 0x41 <= b <= 0x5A then b + 0x20 else b
  }

  /** str.lower on an ASCII metadata key. */
  function Lower(s: Bytes): (l: Bytes)
    ensures |l| == |s|
  {
    seq(|s|, i requires 0 <= i < |s| => LowerByte(s[i]))
  }

  predicate IsAuthorization(entry: (Bytes, Bytes)) {
    Lower(entry.0) == AUTH_HEADER
  }

  /** get_call_metadata, for the configured token ([] when there is none). */
  function ConnectionMetadata(token: Bytes): Metadata {
    if token != [] then [(AUTH_HEADER, BEARER_PREFIX + token)] else []
  }

  /** The operator's entries other than its authorization entries. */
  function WithoutAuthorization(md: Metadata): Metadata {
    if md == [] then []
    else (if IsAuthorization(md[0]) then [] else [md[0]]) + WithoutAuthorization(md[1..])
  }

  /** _call_metadata. */
  function CallMetadata(token: Bytes, operator: Metadata): Metadata {
    var connection := ConnectionMetadata(token);
    if connection == [] then operator else connection + WithoutAuthorization(operator)
  }

  lemma {:induction false} NoneLeft(md: Metadata)
    ensures forall i | 0 <= i < |WithoutAuthorization(md)| :: !IsAuthorization(WithoutAuthorization(md)[i])
    ensures forall e | e in md && !IsAuthorization(e) :: e in WithoutAuthorization(md)
    decreases |md|
  {
    if md == [] {
    } else {
      NoneLeft(md[1..]);
    }
  }

  lemma HeaderIsLower()
    ensures Lower(AUTH_HEADER) == AUTH_HEADER
  {
  }

  /** The bytes of an ASCII text. */
  ghost predicate Spells(bytes: Bytes, text: string) {
    |bytes| == |text| && forall i | 0 <= i < |text| :: bytes[i] as int == text[i] as int
  }

  /** The header's name is that of section 2.1 of RFC 6750 in lower case, and its scheme is "Bearer" and a space. */
  lemma HeaderSpelled()
    ensures Spells(AUTH_HEADER, "authorization") && Spells(BEARER_PREFIX, "Bearer ")
  {
  }

  lemma IdentityKeySpelled()
    ensures Spells(IDENTITY_KEY, "x-remsvc-identity")
  {
    var text := "x-remsvc-identity";
    forall i | 0 <= i < 17
      ensures IDENTITY_KEY[i] as int == text[i] as int
    {
      if i < 4 {
      } else if i < 8 {
      } else if i < 12 {
      } else {
      }
    }
  }

  lemma LowerOfLetter(b: bv8, h: bv8)
    requires 0x61 <= h <= 0x7A
    ensures LowerByte(b) == h <==> b == h || b == h - 0x20
  {
  }

  /** An entry is an authorization entry exactly when its key spells the header, each letter in either case. */
  lemma AuthorizationInAnyCase(entry: (Bytes, Bytes))
    ensures IsAuthorization(entry) <==>
            && |entry.0| == |AUTH_HEADER|
            && forall i | 0 <= i < |AUTH_HEADER| :: entry.0[i] == AUTH_HEADER[i] || entry.0[i] == AUTH_HEADER[i] - 0x20
  {
    if |entry.0| == |AUTH_HEADER| {
      forall i | 0 <= i < |AUTH_HEADER|
        ensures Lower(entry.0)[i] == AUTH_HEADER[i]
                <==> entry.0[i] == AUTH_HEADER[i] || entry.0[i] == AUTH_HEADER[i] - 0x20
      {
        LowerOfLetter(entry.0[i], AUTH_HEADER[i]);
      }
    }
  }

  /** The filter keeps the order: it goes entry by entry. */
  lemma {:induction false} FilterConcat(a: Metadata, b: Metadata)
    ensures WithoutAuthorization(a + b) == WithoutAuthorization(a) + WithoutAuthorization(b)
    decreases |a|
  {
    if a == [] {
      assert a + b == b;
    } else {
      assert (a + b)[1..] == a[1..] + b;
      FilterConcat(a[1..], b);
    }
  }

  /** Without a token the operator's entries go as they are; with one, after the connection's, those that are not
      authorization entries, each in its place. */
  lemma MetadataMeans(token: Bytes, operator: Metadata, k: nat)
    requires k < |operator|
    ensures token == [] ==> CallMetadata(token, operator) == operator
    ensures token != [] ==>
              CallMetadata(token, operator)
              == CallMetadata(token, operator[..k])
                 + (if IsAuthorization(operator[k]) then [] else [operator[k]])
                 + WithoutAuthorization(operator[k + 1..])
  {
    assert operator == operator[..k] + ([operator[k]] + operator[k + 1..]);
    FilterConcat(operator[..k], [operator[k]] + operator[k + 1..]);
    FilterConcat([operator[k]], operator[k + 1..]);
    assert WithoutAuthorization([operator[k]]) == if IsAuthorization(operator[k]) then [] else [operator[k]];
  }

  /** With a token configured, the merged metadata has exactly one authorization entry, in any spelling of
      the key: the connection's, from which the token can be read back; the operator's other
      entries are all kept. */
  lemma MergedMetadata(token: Bytes, operator: Metadata)
    requires token != []
    ensures var md := CallMetadata(token, operator);
            && md != [] && md[0] == (AUTH_HEADER, BEARER_PREFIX + token)
            && IsAuthorization(md[0])
            && (forall i | 1 <= i < |md| :: !IsAuthorization(md[i]))
            && (forall e | e in operator && !IsAuthorization(e) :: e in md)
            && Find(md, AUTH_HEADER) == Some(BEARER_PREFIX + token)
            && BearerToken(Find(md, AUTH_HEADER).value) == Some(token)
  {
    NoneLeft(operator);
    HeaderIsLower();
    BearerRoundTrip(token);
  }

  /** The provider's calls get through a server that has its token, under the identity that owns it,
      whatever metadata the operator adds; and are turned away by a server that has only other tokens. */
  lemma ProviderAuthenticates(identities: map<Bytes, Bytes>, le: (Bytes, Bytes) -> bool,
                              token: Bytes, operator: Metadata, v: Verdict)
    requires TotalOrder(le) && token != []
    requires Decides(identities, le, CallMetadata(token, operator), v)
    ensures Configured(identities, token) ==> v.Accepted? && FirstOwner(identities, le, token, v.identity)
    ensures !Configured(identities, token) ==> v == Disabled || v == UnknownToken
  {
    MergedMetadata(token, operator);
  }
}
