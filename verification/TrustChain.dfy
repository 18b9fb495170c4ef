/** Federation trust chains. The validator checks a list of statements by index; what it establishes is
    a trust path: the anchor's keys vouch for the anchor's statement, and the keys a statement lists
    vouch for whatever its subject signs. The clock is read anew for every check: `clock(k)` is reading
    number `k`. */
module TrustChain {
  import opened U64
  import opened Text
  import opened Json

  /** A signing key, named by its thumbprint. */
  type Key = string

  /** Claims of an entity statement; None where a claim is missing or has another type. */
  datatype Statement = Statement(
    iss: Option<string>, sub: Option<string>, iat: Option<real>, exp: Option<real>, nbf: Option<real>,
    jwks: Option<set<Key>>)

  /** A token as its signature reads: who signed it, under which type, and what it says. */
  datatype Signed = Signed(typ: string, signer: Key, claims: Statement)

  const ENTITY_STATEMENT_TYP := "entity-statement+jwt"

  /** A number of seconds cut to a whole, non-negative, 64-bit one. */
  function ClaimSecs(x: real): nat {
    if x < 0.0 then 0 else if x.Floor > U64_MAX then U64_MAX else x.Floor
  }

  /** `decode` splits a compact token without checking its signature. */
  type Decoder = string -> Option<Signed>

  /** The JWT library's default tolerance in seconds. */
  const LEEWAY := 60

  /** Not refused as not yet valid. */
  predicate InForce(c: Statement, now: nat) { c.nbf.Some? ==> c.nbf.value <= (now + LEEWAY) as real }

  /** The JWT library's check of the times: `nbf` if there, and the expiry, which must be there. */
  predicate TimesOk(c: Statement, now: nat) {
    InForce(c, now) && c.exp.Some? && now as real < c.exp.value + LEEWAY as real
  }

  /** The JWT library's verdict. */
  function Verify(t: Signed, keys: set<Key>, now: nat): Option<Statement> {
    if t.typ == ENTITY_STATEMENT_TYP && t.signer in keys && TimesOk(t.claims, now) then Some(t.claims) else None
  }

  function VerifySelfSigned(t: Signed, now: nat): Option<Statement> {
    if t.claims.iss != t.claims.sub || t.claims.jwks.None? then None else Verify(t, t.claims.jwks.value, now)
  }

  function NonEmpty(s: Option<string>): bool { s.Some? && s.value != "" }

  /** `iat <= now < exp` in whole seconds, with an issuer and a subject. */
  predicate Current(c: Statement, now: nat) {
    && NonEmpty(c.iss) && NonEmpty(c.sub)
    && c.iat.Some? && ClaimSecs(c.iat.value) <= now
    && c.exp.Some? && now < ClaimSecs(c.exp.value)
  }

  // ---- Trust paths ---------------------------------------------------------------

  /** From the anchor's own statement down to the last statement vouched for. */
  datatype Path = Anchored(top: Signed) | Vouched(above: Path, next: Signed)

  function Tip(p: Path): Signed { if p.Anchored? then p.top else p.next }

  /** Who vouches for whom, time aside. */
  ghost predicate Trusted(p: Path, anchor: string, anchorKeys: set<Key>) {
    && Tip(p).typ == ENTITY_STATEMENT_TYP
    && match p
       case Anchored(t) => t.claims.iss == t.claims.sub == Some(anchor) && t.signer in anchorKeys
       case Vouched(above, t) =>
         && Trusted(above, anchor, anchorKeys)
         && t.claims.iss == Tip(above).claims.sub
         && Tip(above).claims.jwks.Some? && t.signer in Tip(above).claims.jwks.value
  }

  ghost predicate SelfSigned(t: Signed) {
    t.claims.iss == t.claims.sub && t.claims.jwks.Some? && t.signer in t.claims.jwks.value
  }

  /** The statements of a path, subject first. */
  function Listing(p: Path): (s: seq<Signed>)
    ensures s != []
  {
    if p.Anchored? then [p.top] else [p.next] + Listing(p.above)
  }

  function PathOf(stmts: seq<Signed>): (p: Path)
    requires stmts != []
    ensures Tip(p) == stmts[0]
  {
    if |stmts| == 1 then Anchored(stmts[0]) else Vouched(PathOf(stmts[1..]), stmts[0])
  }

  lemma {:induction false} PathOfListing(p: Path)
    ensures PathOf(Listing(p)) == p
  {
    if p.Vouched? { PathOfListing(p.above); }
  }

  // ---- The validator ------------------------------------------------------------------

  /** Statement `i` is issued by the subject of the next one and signed by a key that one lists. */
  ghost predicate Links(stmts: seq<Signed>, i: nat, clock: nat -> nat)
    requires i + 1 < |stmts|
  {
    && stmts[i].claims.iss == stmts[i + 1].claims.sub
    && stmts[i + 1].claims.jwks.Some?
    && Verify(stmts[i], stmts[i + 1].claims.jwks.value, LinkTime(stmts, i, clock)).Some?
  }

  /** The reading for the signature of statement `i`. */
  function LinkTime(stmts: seq<Signed>, i: nat, clock: nat -> nat): nat { clock(|stmts| + 1 + i) }

  /** What the index loops check, each with a reading of its own: the claims of every statement, the first
      statement against itself, each link, the last statement against the anchor's keys and against itself. */
  ghost predicate Accepts(stmts: seq<Signed>, sub: string, anchor: string, anchorKeys: set<Key>, clock: nat -> nat) {
    && stmts != []
    && var n, first, last := |stmts|, stmts[0], stmts[|stmts| - 1];
    && (forall i :: 0 <= i < n ==> Current(stmts[i].claims, clock(i)))
    && first.claims.iss == first.claims.sub == Some(sub)
    && last.claims.iss == last.claims.sub == Some(anchor)
    && VerifySelfSigned(first, clock(n)).Some?
    && (forall i :: 0 <= i < n - 1 ==> Links(stmts, i, clock))
    && Verify(last, anchorKeys, clock(2 * n)).Some? && VerifySelfSigned(last, clock(2 * n + 1)).Some?
  }

  /** The decoded chain; None if an entry is not a string or not a token. */
  function Decoded(chain: seq<Json>, decode: Decoder): (r: Option<seq<Signed>>)
    ensures r.Some? ==> |r.value| == |chain|
  {
    if chain == [] then Some([])
    else
      var rest := Decoded(chain[..|chain| - 1], decode);
      var last := chain[|chain| - 1];
      if rest.None? || !last.Str? || decode(last.text).None? then None
      else Some(rest.value + [decode(last.text).value])
  }

  /** A chain decodes to these statements exactly when each entry is a string that decodes to its statement. */
  lemma {:induction false} DecodedExactly(chain: seq<Json>, decode: Decoder, stmts: seq<Signed>)
    ensures Decoded(chain, decode) == Some(stmts) <==>
            && |stmts| == |chain|
            && forall i :: 0 <= i < |chain| ==> chain[i].Str? && decode(chain[i].text) == Some(stmts[i])
    decreases chain
  {
    if chain != [] && stmts != [] {
      var n, m := |chain| - 1, |stmts| - 1;
      DecodedExactly(chain[..n], decode, stmts[..m]);
      assert stmts == stmts[..m] + [stmts[m]];
      assert forall i :: 0 <= i < n ==> chain[..n][i] == chain[i];
    }
  }

  lemma {:induction false} DecodedPrefix(chain: seq<Json>, i: nat, decode: Decoder)
    requires i <= |chain| && Decoded(chain[..i], decode).None?
    ensures Decoded(chain, decode).None?
    decreases |chain| - i
  {
    if i < |chain| {
      assert chain[..i + 1][..i] == chain[..i];
      DecodedPrefix(chain, i + 1, decode);
    } else {
      assert chain[..i] == chain;
    }
  }

  method DecodeChain(chain: seq<Json>, decode: Decoder) returns (r: Option<seq<Signed>>)
    ensures r == Decoded(chain, decode)
  {
    var stmts: seq<Signed> := [];
    for i := 0 to |chain|
      invariant Decoded(chain[..i], decode) == Some(stmts)
    {
      assert chain[..i + 1][..i] == chain[..i];
      if !chain[i].Str? || decode(chain[i].text).None? {
        DecodedPrefix(chain, i + 1, decode);
        return None;
      }
      stmts := stmts + [decode(chain[i].text).value];
    }
    assert chain[..|chain|] == chain;
    return Some(stmts);
  }

  method ValidateTrustChain(chain: seq<Json>, sub: string, anchor: string, anchorKeys: set<Key>,
                            clock: nat -> nat, decode: Decoder)
    returns (r: Option<Statement>)
    ensures r.Some? <==>
            Decoded(chain, decode).Some? && Accepts(Decoded(chain, decode).value, sub, anchor, anchorKeys, clock)
    ensures r.Some? ==> r.value == Decoded(chain, decode).value[0].claims
  {
    var decoded := DecodeChain(chain, decode);
    if decoded.None? || decoded.value == [] {
      return None;
    }
    var stmts := decoded.value;
    var n := |stmts|;
    for i := 0 to n
      invariant forall j :: 0 <= j < i ==> Current(stmts[j].claims, clock(j))
    {
      if !Current(stmts[i].claims, clock(i)) {
        return None;
      }
    }
    var first, last := stmts[0], stmts[n - 1];
    if first.claims.iss != Some(sub) || first.claims.sub != Some(sub) {
      return None;
    }
    if last.claims.iss != Some(anchor) || last.claims.sub != Some(anchor) {
      return None;
    }
    for i := 0 to n - 1
      invariant forall j :: 0 <= j < i ==> stmts[j].claims.iss == stmts[j + 1].claims.sub
    {
      if stmts[i].claims.iss != stmts[i + 1].claims.sub {
        assert !Links(stmts, i, clock);
        return None;
      }
    }
    var subject := VerifySelfSigned(first, clock(n));
    if subject.None? {
      return None;
    }
    for i := 0 to n - 1
      invariant forall j :: 0 <= j < i ==> Links(stmts, j, clock)
    {
      var signerKeys := stmts[i + 1].claims.jwks;
      if signerKeys.None? || Verify(stmts[i], signerKeys.value, LinkTime(stmts, i, clock)).None? {
        assert !Links(stmts, i, clock);
        return None;
      }
    }
    if Verify(last, anchorKeys, clock(2 * n)).None? || VerifySelfSigned(last, clock(2 * n + 1)).None? {
      return None;
    }
    return subject;
  }

  // ---- The validator decides trust ---------------------------------------------------------

  /** The links of a chain, time aside. */
  ghost predicate LinkedFrom(stmts: seq<Signed>, anchor: string, anchorKeys: set<Key>)
    requires stmts != []
  {
    && (forall i :: 0 <= i < |stmts| ==> stmts[i].typ == ENTITY_STATEMENT_TYP)
    && stmts[|stmts| - 1].claims.iss == stmts[|stmts| - 1].claims.sub == Some(anchor)
    && stmts[|stmts| - 1].signer in anchorKeys
    && (forall i :: 0 <= i < |stmts| - 1 ==> Vouches(stmts[i + 1], stmts[i]))
  }

  ghost predicate Vouches(superior: Signed, t: Signed) {
    && t.claims.iss == superior.claims.sub
    && superior.claims.jwks.Some? && t.signer in superior.claims.jwks.value
  }

  lemma LinkedStep(stmts: seq<Signed>, anchor: string, anchorKeys: set<Key>)
    requires |stmts| > 1
    ensures LinkedFrom(stmts, anchor, anchorKeys) <==>
            && stmts[0].typ == ENTITY_STATEMENT_TYP && Vouches(stmts[1], stmts[0])
            && LinkedFrom(stmts[1..], anchor, anchorKeys)
  {
    var rest := stmts[1..];
    assert forall i :: 0 <= i < |rest| ==> rest[i] == stmts[i + 1];
    if stmts[0].typ == ENTITY_STATEMENT_TYP && Vouches(stmts[1], stmts[0]) && LinkedFrom(rest, anchor, anchorKeys) {
      forall i | 0 <= i < |stmts| - 1
        ensures Vouches(stmts[i + 1], stmts[i])
      {
        if i > 0 { assert Vouches(rest[i], rest[i - 1]); }
      }
      forall i | 0 <= i < |stmts|
        ensures stmts[i].typ == ENTITY_STATEMENT_TYP
      {
        if i > 0 { assert rest[i - 1].typ == ENTITY_STATEMENT_TYP; }
      }
    }
    if LinkedFrom(stmts, anchor, anchorKeys) {
      forall i | 0 <= i < |rest| - 1
        ensures Vouches(rest[i + 1], rest[i])
      {
        assert Vouches(stmts[i + 2], stmts[i + 1]);
      }
    }
  }

  /** Index by index or step by step: the same trust. */
  lemma {:induction false} LinkedIsTrusted(stmts: seq<Signed>, anchor: string, anchorKeys: set<Key>)
    requires stmts != []
    ensures LinkedFrom(stmts, anchor, anchorKeys) <==> Trusted(PathOf(stmts), anchor, anchorKeys)
  {
    if |stmts| > 1 {
      LinkedStep(stmts, anchor, anchorKeys);
      LinkedIsTrusted(stmts[1..], anchor, anchorKeys);
      assert Tip(PathOf(stmts[1..])) == stmts[1];
    }
  }

  /** Every statement is current at its reading, and passes the library's time checks at theirs. */
  ghost predicate OnTime(stmts: seq<Signed>, clock: nat -> nat)
    requires stmts != []
  {
    var n := |stmts|;
    && (forall i :: 0 <= i < n ==> Current(stmts[i].claims, clock(i)))
    && TimesOk(stmts[0].claims, clock(n))
    && (forall i :: 0 <= i < n - 1 ==> TimesOk(stmts[i].claims, LinkTime(stmts, i, clock)))
    && TimesOk(stmts[n - 1].claims, clock(2 * n)) && TimesOk(stmts[n - 1].claims, clock(2 * n + 1))
  }

  function Root(p: Path): Signed { if p.Anchored? then p.top else Root(p.above) }

  lemma {:induction false} RootOfPath(stmts: seq<Signed>)
    requires stmts != []
    ensures Root(PathOf(stmts)) == stmts[|stmts| - 1]
  {
    if |stmts| > 1 { RootOfPath(stmts[1..]); }
  }

  lemma LinkExactly(stmts: seq<Signed>, i: nat, clock: nat -> nat)
    requires i + 1 < |stmts|
    ensures Links(stmts, i, clock) <==>
            && stmts[i].typ == ENTITY_STATEMENT_TYP && Vouches(stmts[i + 1], stmts[i])
            && TimesOk(stmts[i].claims, LinkTime(stmts, i, clock))
  {
  }

  /** The checks by index are links, self-signed ends and times. */
  lemma AcceptsByIndex(stmts: seq<Signed>, sub: string, anchor: string, anchorKeys: set<Key>, clock: nat -> nat)
    requires stmts != []
    ensures Accepts(stmts, sub, anchor, anchorKeys, clock) <==>
            && LinkedFrom(stmts, anchor, anchorKeys) && OnTime(stmts, clock)
            && SelfSigned(stmts[0]) && SelfSigned(stmts[|stmts| - 1]) && stmts[0].claims.sub == Some(sub)
  {
    forall i | 0 <= i < |stmts| - 1
      ensures Links(stmts, i, clock) <==>
              && stmts[i].typ == ENTITY_STATEMENT_TYP && Vouches(stmts[i + 1], stmts[i])
              && TimesOk(stmts[i].claims, LinkTime(stmts, i, clock))
    {
      LinkExactly(stmts, i, clock);
    }
    if Accepts(stmts, sub, anchor, anchorKeys, clock) {
      forall i | 0 <= i < |stmts| - 1
        ensures stmts[i].typ == ENTITY_STATEMENT_TYP && Vouches(stmts[i + 1], stmts[i])
        ensures TimesOk(stmts[i].claims, LinkTime(stmts, i, clock))
      {
        assert Links(stmts, i, clock);
      }
    }
  }

  /** A chain is accepted exactly when it lists a trust path from the anchor down to the subject's own
      statement, both end statements are signed by keys they list themselves, and every statement is on time
      at each reading of the clock. */
  lemma AcceptedExactly(stmts: seq<Signed>, sub: string, anchor: string, anchorKeys: set<Key>, clock: nat -> nat)
    requires stmts != []
    ensures Accepts(stmts, sub, anchor, anchorKeys, clock) <==>
            var p := PathOf(stmts);
            && Trusted(p, anchor, anchorKeys) && SelfSigned(Tip(p)) && SelfSigned(Root(p))
            && Tip(p).claims.sub == Some(sub) && OnTime(stmts, clock)
  {
    AcceptsByIndex(stmts, sub, anchor, anchorKeys, clock);
    LinkedIsTrusted(stmts, anchor, anchorKeys);
    RootOfPath(stmts);
  }

  /** If all readings fall between two instants, it is enough that every statement is current at both and in
      force at the first. */
  lemma OnTimeBetween(stmts: seq<Signed>, clock: nat -> nat, from: nat, to: nat)
    requires stmts != [] && forall k :: from <= clock(k) <= to
    requires forall i :: 0 <= i < |stmts| ==>
               Current(stmts[i].claims, from) && Current(stmts[i].claims, to) && InForce(stmts[i].claims, from)
    ensures OnTime(stmts, clock)
  {
    forall i, now: nat | 0 <= i < |stmts| && from <= now <= to
      ensures Current(stmts[i].claims, now) && TimesOk(stmts[i].claims, now)
    {
      assert Current(stmts[i].claims, from);
    }
  }

  /** Keys for an entity derivable from the anchor's by statements that were current when looked at. */
  ghost predicate Derivable(keys: set<Key>, entity: string, anchor: string, anchorKeys: set<Key>, clock: nat -> nat) {
    exists p: Path ::
      && Trusted(p, anchor, anchorKeys) && Tip(p).claims.sub == Some(entity) && Tip(p).claims.jwks == Some(keys)
      && forall i :: 0 <= i < |Listing(p)| ==> Current(Listing(p)[i].claims, clock(i))
  }

  lemma {:induction false} ListingOfPath(stmts: seq<Signed>)
    requires stmts != []
    ensures Listing(PathOf(stmts)) == stmts
  {
    if |stmts| > 1 { ListingOfPath(stmts[1..]); }
  }

  /** Soundness: whatever the chain's length, the keys returned for the subject are derivable from the
      anchor's, and every statement is within its window. */
  lemma ChainSound(stmts: seq<Signed>, sub: string, anchor: string, anchorKeys: set<Key>, clock: nat -> nat)
    requires Accepts(stmts, sub, anchor, anchorKeys, clock)
    ensures stmts[0].claims.jwks.Some? && Derivable(stmts[0].claims.jwks.value, sub, anchor, anchorKeys, clock)
    ensures forall i :: 0 <= i < |stmts| ==> Within(stmts[i].claims, clock(i))
  {
    AcceptedExactly(stmts, sub, anchor, anchorKeys, clock);
    ListingOfPath(stmts);
    assert Trusted(PathOf(stmts), anchor, anchorKeys);
    forall i | 0 <= i < |stmts|
      ensures Within(stmts[i].claims, clock(i))
    {
      assert Current(stmts[i].claims, clock(i));
      CurrentWithin(stmts[i].claims, clock(i));
    }
  }

  /** A whole second or more before `exp`, and not before the second that `iat` falls in. */
  ghost predicate Within(c: Statement, now: nat) {
    c.iat.Some? && c.exp.Some? && c.iat.value < now as real + 1.0 && now as real + 1.0 <= c.exp.value
  }

  lemma CurrentWithin(c: Statement, now: nat)
    requires now < U64_MAX
    ensures Current(c, now) <==>
            && c.iss.Some? && c.iss.value != "" && c.sub.Some? && c.sub.value != ""
            && Within(c, now)
  {
  }

  /** The library's times with its leeway of a minute: before expiry, and not before the start if one is given. */
  lemma TimesExactly(c: Statement, now: nat)
    ensures TimesOk(c, now) <==>
            && c.exp.Some? && now as real - 60.0 < c.exp.value
            && (c.nbf.Some? ==> c.nbf.value - 60.0 <= now as real)
  {
  }

  /** Fractions of a second are cut off: a statement issued later within the current second passes. */
  lemma FractionalIatPasses()
    ensures var c := Statement(Some("a"), Some("a"), Some(10.5), Some(20.0), None, None);
            Current(c, 10) && !(c.iat.value <= 10.0)
  {
    assert 10.5.Floor == 10;
  }

  /** Completeness: every trust path with self-signed ends that is on time is accepted as the list of its
      statements. */
  lemma PathAccepted(p: Path, anchor: string, anchorKeys: set<Key>, clock: nat -> nat)
    requires Trusted(p, anchor, anchorKeys) && SelfSigned(Tip(p)) && SelfSigned(Root(p)) && OnTime(Listing(p), clock)
    ensures Tip(p).claims.sub.Some? && Accepts(Listing(p), Tip(p).claims.sub.value, anchor, anchorKeys, clock)
  {
    PathOfListing(p);
    assert Listing(p)[0] == Tip(p) && Current(Listing(p)[0].claims, clock(0));
    AcceptedExactly(Listing(p), Tip(p).claims.sub.value, anchor, anchorKeys, clock);
  }

  // ---- Resolve responses ------------------------------------------------------------------

  datatype ResolveResponse = ResolveResponse(
    iss: Option<string>, sub: Option<string>, trustChain: Option<seq<Json>>, metadata: Option<Json>, exp: Option<real>)

  datatype ResolvedEntity = ResolvedEntity(
    issuer: string, subject: string, metadata: Json, subjectJwks: set<Key>, exp: Option<nat>)

  /** A resolved entity's keys are derivable from the anchor's; metadata and expiry are the response's. */
  method ExtractResolvedEntity(resolved: ResolveResponse, anchor: string, sub: string, anchorKeys: set<Key>,
                               clock: nat -> nat, decode: Decoder)
    returns (r: Option<ResolvedEntity>)
    ensures r.Some? <==>
            && resolved.iss == Some(anchor) && resolved.sub == Some(sub) && resolved.metadata.Some?
            && resolved.trustChain.Some?
            && Decoded(resolved.trustChain.value, decode).Some?
            && Accepts(Decoded(resolved.trustChain.value, decode).value, sub, anchor, anchorKeys, clock)
    ensures r.Some? ==>
              && r.value.issuer == anchor && r.value.subject == sub && Some(r.value.metadata) == resolved.metadata
              && Derivable(r.value.subjectJwks, sub, anchor, anchorKeys, clock)
              && r.value.exp == if resolved.exp.Some? then Some(ClaimSecs(resolved.exp.value)) else None
  {
    if resolved.iss != Some(anchor) || resolved.sub != Some(sub) || resolved.trustChain.None? {
      return None;
    }
    var subject := ValidateTrustChain(resolved.trustChain.value, sub, anchor, anchorKeys, clock, decode);
    if subject.None? || resolved.metadata.None? {
      return None;
    }
    ChainSound(Decoded(resolved.trustChain.value, decode).value, sub, anchor, anchorKeys, clock);
    return Some(ResolvedEntity(anchor, sub, resolved.metadata.value, subject.value.jwks.value,
                               if resolved.exp.Some? then Some(ClaimSecs(resolved.exp.value)) else None));
  }
}
