/** Capability tokens: a minted root identifier followed by a chain of narrowing caveats, each
    folded into a keyed hash. The keyed hash is symbolic: equal results mean equal key and message. */
module Tokens {
  import opened Common
  import opened Bits
  import opened ProofOfWork

  /** A capability mask, as the set of its bit positions. */
  type Caps = set<nat>

  const READ: Caps := {0}
  const ENRICH: Caps := {1}
  const WRITE: Caps := {2}
  const DELETE: Caps := {3}
  const SPEND: Caps := {4}
  const SPAWN: Caps := {5}
  const RED_FLAG: Caps := {6}

  datatype Identifier =
    Identifier(root: string, caps: Caps, exp: real, budget: real, nonce: int, difficulty: int)

  datatype Caveat =
    | CapCaveat(mask: Caps)
    | ExpCaveat(exp: real)
    | BudgetCaveat(v: real)
    | ActorCaveat(id: string)
    | HolderCaveat(key: string)
    | UnknownCaveat(tag: string)

  datatype Message = Ident(identifier: Identifier) | Link(caveat: Caveat)

  /** Byte strings as far as hashing can tell them apart: atoms, and keyed hashes of messages. */
  datatype Term = Atom(id: nat) | Hmac(key: Term, message: Message)

  datatype Token = Token(identifier: Identifier, sig: Term, caveats: seq<Caveat>)

  datatype Claims = Claims(
    accountableRoot: string, actor: string, caps: Caps, exp: real, budget: real, depth: nat,
    holder: Option<string>)

  datatype VerifyError = Unminted | UnknownType | SignatureMismatch | Expired

  datatype Verification = Accepted(claims: Claims) | Rejected(error: VerifyError)

  function Min(a: real, b: real): real {
    if b < a then b else a
  }

  // ----- minting and delegating -----

  /** The signature of a token: the identifier under the secret, then each caveat under the previous
      signature. */
  function ChainSig(secret: Term, identifier: Identifier, caveats: seq<Caveat>): Term {
    if |caveats| == 0 then Hmac(secret, Ident(identifier))
    else Hmac(ChainSig(secret, identifier, caveats[..|caveats| - 1]), Link(caveats[|caveats| - 1]))
  }

  ghost predicate Genuine(token: Token, secret: Term) {
    token.sig == ChainSig(secret, token.identifier, token.caveats)
  }

  /** Append a caveat; only the current signature is needed. */
  function Chain(token: Token, caveat: Caveat): Token {
    Token(token.identifier, Hmac(token.sig, Link(caveat)), token.caveats + [caveat])
  }

  function ChainIf(token: Token, caveat: Option<Caveat>): Token {
    if caveat.Some? then Chain(token, caveat.value) else token
  }

  function CapIf(caps: Option<Caps>): Option<Caveat> {
    if caps.Some? then Some(CapCaveat(caps.value)) else None
  }

  function ExpIf(exp: Option<real>): Option<Caveat> {
    if exp.Some? then Some(ExpCaveat(exp.value)) else None
  }

  function BudgetIf(budget: Option<real>): Option<Caveat> {
    if budget.Some? then Some(BudgetCaveat(budget.value)) else None
  }

  function ActorIf(actor: Option<string>): Option<Caveat> {
    if actor.Some? then Some(ActorCaveat(actor.value)) else None
  }

  function HolderIf(holder: Option<string>): Option<Caveat> {
    if holder.Some? then Some(HolderCaveat(holder.value)) else None
  }

  /** Delegate one hop down: append a caveat for every argument given, in this order. */
  function Attenuate(token: Token, caps: Option<Caps>, exp: Option<real>, budget: Option<real>,
                     actor: Option<string>, holder: Option<string>): Token {
    var t1 := ChainIf(token, CapIf(caps));
    var t2 := ChainIf(t1, ExpIf(exp));
    var t3 := ChainIf(t2, BudgetIf(budget));
    var t4 := ChainIf(t3, ActorIf(actor));
    ChainIf(t4, HolderIf(holder))
  }

  /** Append any caveats, known or not, one after the other. */
  function ChainAll(token: Token, caveats: seq<Caveat>): Token {
    if |caveats| == 0 then token else Chain(ChainAll(token, caveats[..|caveats| - 1]), caveats[|caveats| - 1])
  }

  // ----- what a token is worth -----

  function Narrow(claims: Claims, caveat: Caveat): Claims {
    match caveat
    case CapCaveat(mask) => claims.(caps := claims.caps * mask)
    case ExpCaveat(exp) => claims.(exp := Min(claims.exp, exp))
    case BudgetCaveat(v) => claims.(budget := Min(claims.budget, v))
    case ActorCaveat(id) => claims.(actor := id, depth := claims.depth + 1)
    case HolderCaveat(key) => claims.(holder := Some(key))
    case UnknownCaveat(_) => claims
  }

  function RootClaims(i: Identifier): Claims {
    Claims(i.root, i.root, i.caps, i.exp, i.budget, 0, None)
  }

  /** The effective claims: every caveat, in order, narrows the root's. */
  function Fold(identifier: Identifier, caveats: seq<Caveat>): Claims {
    if |caveats| == 0 then RootClaims(identifier)
    else Narrow(Fold(identifier, caveats[..|caveats| - 1]), caveats[|caveats| - 1])
  }

  predicate AllKnown(caveats: seq<Caveat>) {
    forall c :: c in caveats ==> !c.UnknownCaveat?
  }

  /** The verdict on a token: minted, only known caveats, correctly signed, not expired, in this order. */
  function Verified(token: Token, secret: Term, now: Option<real>, digest: Digest): Verification {
    var i := token.identifier;
    if !PowValid(i.root, i.nonce, i.difficulty, digest) then Rejected(Unminted)
    else if !AllKnown(token.caveats) then Rejected(UnknownType)
    else if ChainSig(secret, i, token.caveats) != token.sig then Rejected(SignatureMismatch)
    else
      var claims := Fold(i, token.caveats);
      if now.Some? && now.value >= claims.exp then Rejected(Expired) else Accepted(claims)
  }

  method MintRoot(secret: Term, root: string, caps: Caps, expires: real, budget: real, difficulty: int,
                  digest: Digest) returns (token: Token)
    requires exists n :: n >= 0 && PowValid(root, n, difficulty, digest)
    ensures token.identifier == Identifier(root, caps, expires, budget, token.identifier.nonce, difficulty)
    ensures token.caveats == [] && token.sig == Hmac(secret, Ident(token.identifier)) && Genuine(token, secret)
    ensures token.identifier.nonce >= 0 && PowValid(root, token.identifier.nonce, difficulty, digest)
    ensures forall n :: 0 <= n < token.identifier.nonce ==> !PowValid(root, n, difficulty, digest)
    ensures forall now: Option<real> :: Verified(token, secret, now, digest) ==
              if now.Some? && now.value >= expires then Rejected(Expired)
              else Accepted(Claims(root, root, caps, expires, budget, 0, None))
  {
    var nonce, _ := Mine(root, difficulty, 0, digest);
    var identifier := Identifier(root, caps, expires, budget, nonce, difficulty);
    token := Token(identifier, Hmac(secret, Ident(identifier)), []);
  }

  /** The verifier's two loops: recompute the signature chain, then fold the caveats. */
  method Verify(token: Token, secret: Term, now: Option<real>, digest: Digest) returns (r: Verification)
    ensures r == Verified(token, secret, now, digest)
  {
    var i, caveats := token.identifier, token.caveats;
    if !PowValid(i.root, i.nonce, i.difficulty, digest) {
      return Rejected(Unminted);
    }
    var s := Hmac(secret, Ident(i));
    for k := 0 to |caveats|
      invariant s == ChainSig(secret, i, caveats[..k]) && AllKnown(caveats[..k])
    {
      if caveats[k].UnknownCaveat? {
        return Rejected(UnknownType);
      }
      s := Hmac(s, Link(caveats[k]));
      assert caveats[..k + 1][..k] == caveats[..k];
    }
    assert caveats[..|caveats|] == caveats;
    if s != token.sig {
      return Rejected(SignatureMismatch);
    }
    var caps, exp, budget, actor, depth := i.caps, i.exp, i.budget, i.root, 0;
    var holder: Option<string> := None;
    for k := 0 to |caveats|
      invariant Claims(i.root, actor, caps, exp, budget, depth, holder) == Fold(i, caveats[..k])
    {
      match caveats[k] {
        case CapCaveat(mask) => caps := caps * mask;
        case ExpCaveat(e) => exp := Min(exp, e);
        case BudgetCaveat(v) => budget := Min(budget, v);
        case ActorCaveat(id) => actor, depth := id, depth + 1;
        case HolderCaveat(key) => holder := Some(key);
        case UnknownCaveat(_) =>
      }
      assert caveats[..k + 1][..k] == caveats[..k];
    }
    if now.Some? && now.value >= exp {
      return Rejected(Expired);
    }
    return Accepted(Claims(i.root, actor, caps, exp, budget, depth, holder));
  }

  // ----- what the claims mean -----

  function Actors(caveats: seq<Caveat>): nat {
    if |caveats| == 0 then 0
    else Actors(caveats[..|caveats| - 1]) + if caveats[|caveats| - 1].ActorCaveat? then 1 else 0
  }

  /** The claims, read off the caveat list without folding: the capabilities common to the root and
      every cap caveat, the earliest expiry, the least budget, the last actor and holder named, and
      the number of hops. */
  lemma {:induction false} ClaimsMeaning(i: Identifier, caveats: seq<Caveat>)
    ensures
      var c := Fold(i, caveats);
      && c.accountableRoot == i.root
      && (forall b :: b in c.caps <==>
            b in i.caps && forall k :: 0 <= k < |caveats| && caveats[k].CapCaveat? ==> b in caveats[k].mask)
      && c.exp <= i.exp && (forall k :: 0 <= k < |caveats| && caveats[k].ExpCaveat? ==> c.exp <= caveats[k].exp)
      && (c.exp == i.exp || exists k :: 0 <= k < |caveats| && caveats[k] == ExpCaveat(c.exp))
      && c.budget <= i.budget
      && (forall k :: 0 <= k < |caveats| && caveats[k].BudgetCaveat? ==> c.budget <= caveats[k].v)
      && (c.budget == i.budget || exists k :: 0 <= k < |caveats| && caveats[k] == BudgetCaveat(c.budget))
      && c.depth == Actors(caveats)
  {
    if |caveats| > 0 {
      var front, last := caveats[..|caveats| - 1], caveats[|caveats| - 1];
      ClaimsMeaning(i, front);
      assert caveats == front + [last];
      assert forall k :: 0 <= k < |front| ==> caveats[k] == front[k];
    }
  }

  predicate LastActor(caveats: seq<Caveat>, k: nat)
    requires k < |caveats|
  {
    caveats[k].ActorCaveat? && forall j :: k < j < |caveats| ==> !caveats[j].ActorCaveat?
  }

  predicate LastHolder(caveats: seq<Caveat>, k: nat)
    requires k < |caveats|
  {
    caveats[k].HolderCaveat? && forall j :: k < j < |caveats| ==> !caveats[j].HolderCaveat?
  }

  /** Responsibility belongs to the last caveat that names an actor. */
  lemma {:induction false} LatestActor(i: Identifier, caveats: seq<Caveat>, k: nat)
    requires k < |caveats| && LastActor(caveats, k)
    ensures Fold(i, caveats).actor == caveats[k].id
    decreases |caveats|
  {
    if k < |caveats| - 1 {
      var front := caveats[..|caveats| - 1];
      assert forall j :: 0 <= j < |front| ==> front[j] == caveats[j];
      LatestActor(i, front, k);
    }
  }

  /** The key to be proved belongs to the last caveat that binds one. */
  lemma {:induction false} LatestHolder(i: Identifier, caveats: seq<Caveat>, k: nat)
    requires k < |caveats| && LastHolder(caveats, k)
    ensures Fold(i, caveats).holder == Some(caveats[k].key)
    decreases |caveats|
  {
    if k < |caveats| - 1 {
      var front := caveats[..|caveats| - 1];
      assert forall j :: 0 <= j < |front| ==> front[j] == caveats[j];
      LatestHolder(i, front, k);
    }
  }

  /** When nobody is named the root acts, and when no key is bound the token is a bearer token. */
  lemma {:induction false} NobodyNamed(i: Identifier, caveats: seq<Caveat>)
    ensures (forall k :: 0 <= k < |caveats| ==> !caveats[k].ActorCaveat?) ==> Fold(i, caveats).actor == i.root
    ensures Fold(i, caveats).holder == None <==> forall k :: 0 <= k < |caveats| ==> !caveats[k].HolderCaveat?
  {
    if |caveats| > 0 {
      var front := caveats[..|caveats| - 1];
      NobodyNamed(i, front);
      assert forall j :: 0 <= j < |front| ==> front[j] == caveats[j];
    }
  }

  // ----- what acceptance takes -----

  /** The digest of the root and its nonce, as a number, is below the bound that the difficulty sets. */
  predicate Minted(i: Identifier, digest: Digest) {
    var h := digest(i.root, i.nonce);
    i.difficulty <= 8 * |h| && BigEndian(h) < Pow2(8 * |h| - (if i.difficulty < 0 then 0 else i.difficulty))
  }

  predicate NoneUnknown(caveats: seq<Caveat>) {
    forall k :: 0 <= k < |caveats| ==> !caveats[k].UnknownCaveat?
  }

  /** The time, if it matters, is before the root's expiry and that of every expiry caveat. */
  predicate InTime(i: Identifier, caveats: seq<Caveat>, now: Option<real>) {
    now.Some? ==>
      && now.value < i.exp
      && forall k :: 0 <= k < |caveats| && caveats[k].ExpCaveat? ==> now.value < caveats[k].exp
  }

  lemma InTimeMeaning(i: Identifier, caveats: seq<Caveat>, now: Option<real>)
    ensures InTime(i, caveats, now) <==> now.None? || now.value < Fold(i, caveats).exp
  {
    ClaimsMeaning(i, caveats);
  }

  /** What acceptance takes, read off the token: a minted root, no unknown caveat, the right signature and
      a time before every expiry. Each error means that its condition is the first to fail. */
  lemma AcceptanceMeaning(token: Token, secret: Term, now: Option<real>, digest: Digest)
    ensures
      var v, i, caveats := Verified(token, secret, now, digest), token.identifier, token.caveats;
      var minted, known, genuine := Minted(i, digest), NoneUnknown(caveats), Genuine(token, secret);
      var inTime := InTime(i, caveats, now);
      && (v.Accepted? <==> minted && known && genuine && inTime)
      && (v == Rejected(Unminted) <==> !minted)
      && (v == Rejected(UnknownType) <==> minted && !known)
      && (v == Rejected(SignatureMismatch) <==> minted && known && !genuine)
      && (v == Rejected(Expired) <==> minted && known && genuine && !inTime)
      && (v.Accepted? ==> v.claims == Fold(i, caveats))
  {
    var i := token.identifier;
    PowValidMeaning(i.root, i.nonce, i.difficulty, digest);
    InTimeMeaning(i, token.caveats, now);
    assert AllKnown(token.caveats) <==> NoneUnknown(token.caveats);
  }

  /** A signature is right when it is the keyed hash of its last caveat under a right signature of the
      rest, or of the identifier under the secret. */
  lemma GenuineMeaning(token: Token, secret: Term)
    ensures
      var n := |token.caveats|;
      Genuine(token, secret) <==>
      if n == 0 then token.sig == Hmac(secret, Ident(token.identifier))
      else
        && token.sig.Hmac? && token.sig.message == Link(token.caveats[n - 1])
        && Genuine(Token(token.identifier, token.sig.key, token.caveats[..n - 1]), secret)
  {}

  // ----- narrowing -----

  /** Same accountable root, no wider capabilities, no later expiry, no larger budget, no fewer hops. */
  predicate Narrower(c: Claims, d: Claims) {
    && c.accountableRoot == d.accountableRoot
    && c.caps <= d.caps
    && c.exp <= d.exp
    && c.budget <= d.budget
    && c.depth >= d.depth
  }

  /** Appending caveats can only narrow. */
  lemma {:induction false} ExtensionNarrows(i: Identifier, caveats: seq<Caveat>, longer: seq<Caveat>)
    requires caveats <= longer
    ensures Narrower(Fold(i, longer), Fold(i, caveats))
    decreases |longer|
  {
    if |caveats| < |longer| {
      ExtensionNarrows(i, caveats, longer[..|longer| - 1]);
    } else {
      assert caveats == longer;
    }
  }

  function NarrowIf(claims: Claims, caveat: Option<Caveat>): Claims {
    if caveat.Some? then Narrow(claims, caveat.value) else claims
  }

  lemma ChainIfStep(token: Token, caveat: Option<Caveat>, secret: Term)
    requires caveat.Some? ==> !caveat.value.UnknownCaveat?
    ensures
      var t := ChainIf(token, caveat);
      && t.identifier == token.identifier
      && Fold(t.identifier, t.caveats) == NarrowIf(Fold(token.identifier, token.caveats), caveat)
      && (Genuine(t, secret) <==> Genuine(token, secret))
      && (AllKnown(t.caveats) <==> AllKnown(token.caveats))
  {
    if caveat.Some? {
      var all := token.caveats + [caveat.value];
      assert all[..|all| - 1] == token.caveats;
      assert forall c :: c in all <==> c in token.caveats || c == caveat.value;
    }
  }

  /** Chaining keeps the identifier, appends the caveats, and signs correctly exactly when the token it
      starts from is correctly signed. */
  lemma {:induction false} ChainAllGenuine(token: Token, caveats: seq<Caveat>, secret: Term)
    ensures
      var child := ChainAll(token, caveats);
      child.identifier == token.identifier && child.caveats == token.caveats + caveats
      && (Genuine(child, secret) <==> Genuine(token, secret))
  {
    if |caveats| > 0 {
      var front, last := caveats[..|caveats| - 1], caveats[|caveats| - 1];
      ChainAllGenuine(token, front, secret);
      var parent := ChainAll(token, front);
      assert caveats == front + [last];
      assert (parent.caveats + [last])[..|parent.caveats|] == parent.caveats;
    }
  }

  /** The claims an attenuation leaves: narrowed by exactly the arguments given. */
  function Attenuated(c: Claims, caps: Option<Caps>, exp: Option<real>, budget: Option<real>,
                      actor: Option<string>, holder: Option<string>): Claims {
    Claims(c.accountableRoot,
           if actor.Some? then actor.value else c.actor,
           if caps.Some? then c.caps * caps.value else c.caps,
           if exp.Some? then Min(c.exp, exp.value) else c.exp,
           if budget.Some? then Min(c.budget, budget.value) else c.budget,
           if actor.Some? then c.depth + 1 else c.depth,
           if holder.Some? then holder else c.holder)
  }

  lemma FiveSteps(token: Token, c1: Option<Caveat>, c2: Option<Caveat>, c3: Option<Caveat>,
                  c4: Option<Caveat>, c5: Option<Caveat>, secret: Term)
    requires forall c :: c in {c1, c2, c3, c4, c5} && c.Some? ==> !c.value.UnknownCaveat?
    ensures
      var child := ChainIf(ChainIf(ChainIf(ChainIf(ChainIf(token, c1), c2), c3), c4), c5);
      var c := Fold(token.identifier, token.caveats);
      && child.identifier == token.identifier
      && Fold(child.identifier, child.caveats)
         == NarrowIf(NarrowIf(NarrowIf(NarrowIf(NarrowIf(c, c1), c2), c3), c4), c5)
      && (Genuine(child, secret) <==> Genuine(token, secret))
      && (AllKnown(child.caveats) <==> AllKnown(token.caveats))
  {
    ChainIfStep(token, c1, secret);
    var t1 := ChainIf(token, c1);
    ChainIfStep(t1, c2, secret);
    var t2 := ChainIf(t1, c2);
    ChainIfStep(t2, c3, secret);
    var t3 := ChainIf(t2, c3);
    ChainIfStep(t3, c4, secret);
    ChainIfStep(ChainIf(t3, c4), c5, secret);
  }

  lemma NarrowedByFive(c: Claims, caps: Option<Caps>, exp: Option<real>, budget: Option<real>,
                       actor: Option<string>, holder: Option<string>)
    ensures
      var c1 := NarrowIf(c, CapIf(caps));
      var c2 := NarrowIf(c1, ExpIf(exp));
      var c3 := NarrowIf(c2, BudgetIf(budget));
      var c4 := NarrowIf(c3, ActorIf(actor));
      NarrowIf(c4, HolderIf(holder))
      == Attenuated(c, caps, exp, budget, actor, holder)
  {}

  lemma AttenuateClaims(token: Token, caps: Option<Caps>, exp: Option<real>, budget: Option<real>,
                        actor: Option<string>, holder: Option<string>, secret: Term)
    ensures
      var child := Attenuate(token, caps, exp, budget, actor, holder);
      && child.identifier == token.identifier
      && Fold(child.identifier, child.caveats)
         == Attenuated(Fold(token.identifier, token.caveats), caps, exp, budget, actor, holder)
      && (Genuine(child, secret) <==> Genuine(token, secret))
      && (AllKnown(child.caveats) <==> AllKnown(token.caveats))
  {
    NarrowedByFive(Fold(token.identifier, token.caveats), caps, exp, budget, actor, holder);
    FiveSteps(token, CapIf(caps), ExpIf(exp), BudgetIf(budget), ActorIf(actor), HolderIf(holder), secret);
  }

  /** Attenuating appends a caveat for every argument given: capabilities, expiry, budget, actor, holder,
      in this order. */
  lemma AttenuateAppends(token: Token, caps: Option<Caps>, exp: Option<real>, budget: Option<real>,
                         actor: Option<string>, holder: Option<string>)
    ensures Attenuate(token, caps, exp, budget, actor, holder).caveats ==
            token.caveats
            + (if caps.Some? then [CapCaveat(caps.value)] else [])
            + (if exp.Some? then [ExpCaveat(exp.value)] else [])
            + (if budget.Some? then [BudgetCaveat(budget.value)] else [])
            + (if actor.Some? then [ActorCaveat(actor.value)] else [])
            + (if holder.Some? then [HolderCaveat(holder.value)] else [])
  {}

  /** Attenuating: the child verifies at a time exactly when the parent does and its own expiry has
      not passed; its claims are the parent's narrowed by exactly the arguments given; and it is
      rejected as the parent is, or as expired. */
  lemma AttenuateVerifies(token: Token, caps: Option<Caps>, exp: Option<real>, budget: Option<real>,
                          actor: Option<string>, holder: Option<string>,
                          secret: Term, now: Option<real>, digest: Digest)
    ensures
      var child := Verified(Attenuate(token, caps, exp, budget, actor, holder), secret, now, digest);
      var parent := Verified(token, secret, now, digest);
      var outlived := now.Some? && exp.Some? && now.value >= exp.value;
      && (child.Accepted? <==> parent.Accepted? && !outlived)
      && (child.Accepted? ==> child.claims == Attenuated(parent.claims, caps, exp, budget, actor, holder))
      && (child.Rejected? ==> child.error == if parent.Rejected? then parent.error else Expired)
  {
    AttenuateClaims(token, caps, exp, budget, actor, holder, secret);
    var child := Attenuate(token, caps, exp, budget, actor, holder);
    SameGround(token, child, secret, now, digest);
  }

  /** For two tokens that agree on everything but their claims, only expiry tells their verdicts apart. */
  lemma SameGround(token: Token, child: Token, secret: Term, now: Option<real>, digest: Digest)
    requires child.identifier == token.identifier
    requires (Genuine(child, secret) <==> Genuine(token, secret))
             && (AllKnown(child.caveats) <==> AllKnown(token.caveats))
    requires Fold(child.identifier, child.caveats).exp <= Fold(token.identifier, token.caveats).exp
    ensures
      var c, p := Verified(child, secret, now, digest), Verified(token, secret, now, digest);
      var exp := Fold(child.identifier, child.caveats).exp;
      && (c.Accepted? <==> p.Accepted? && !(now.Some? && now.value >= exp))
      && (c.Accepted? ==> c.claims == Fold(child.identifier, child.caveats))
      && (p.Accepted? ==> p.claims == Fold(token.identifier, token.caveats))
      && (c.Rejected? ==> c.error == if p.Rejected? then p.error else Expired)
  {}
}
