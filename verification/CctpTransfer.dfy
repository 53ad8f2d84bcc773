/**
 * The life of one cross-chain transfer: a transition table with a single choke point, the reading of Iris answers,
 * and reconciliation against the on-chain nonce.
 */
module CctpTransfer {
  import opened Wrappers

  datatype State = Pending | Attested | Submitting | Delivered | Failed

  function LegalTransitions(s: State): set<State> {
    match s
    case Pending => {Attested, Failed}
    case Attested => {Submitting, Failed}
    case Submitting => {Delivered, Submitting, Attested, Failed}
    case Delivered => {}
    case Failed => {Delivered}
  }

  /** What a transfer is; fixed when its row is created. */
  datatype Identity = Identity(
    nonce: string, sourceDomain: nat, destinationDomain: nat, burnTxHash: string, amountUsdc6: nat,
    beneficiary: seq<octet>)

  datatype Transfer = Transfer(
    id: Identity, state: State, attestation: Option<string>, message: Option<string>, mintTxHash: Option<string>,
    depositTxHash: Option<string>, lastError: Option<string>, attempts: nat)

  /** A key of the patch object: absent, or present with a value that may be `undefined`. */
  datatype Field = Keep | Put(value: Option<string>)

  datatype Patch = Patch(attestation: Field, message: Field, mintTxHash: Field, depositTxHash: Field, lastError: Field)

  const NO_PATCH := Patch(Keep, Keep, Keep, Keep, Keep)

  /** Neither `undefined` nor empty. */
  predicate Truthy(o: Option<string>) { o.Some? && o.value != "" }

  function Apply(stored: Option<string>, f: Field): Option<string> { if f.Keep? then stored else f.value }

  function Patched(t: Transfer, p: Patch): Transfer {
    t.(attestation := Apply(t.attestation, p.attestation), message := Apply(t.message, p.message),
       mintTxHash := Apply(t.mintTxHash, p.mintTxHash), depositTxHash := Apply(t.depositTxHash, p.depositTxHash),
       lastError := Apply(t.lastError, p.lastError))
  }

  datatype Outcome = Moved(transfer: Transfer) | Illegal(from: State, to: State)

  function Transition(t: Transfer, to: State, patch: Patch): Outcome {
    if t.state == to && patch == NO_PATCH then Moved(t)
    else if t.state == to && to !in LegalTransitions(t.state) then Moved(Patched(t, patch))
    else if to !in LegalTransitions(t.state) then Illegal(t.state, to)
    else
      var cleared := if to != Failed && patch.lastError == Keep then t.(lastError := None) else t;
      Moved(Patched(cleared, patch).(state := to))
  }

  // ---------------------------------------------------------------- Iris

  datatype IrisStatus =
    | IrisPending
    | IrisComplete(attestation: string, message: Option<string>)
    | IrisBackoff(retryAfterMs: int)
    | IrisError(error: string)

  datatype HttpBody = HttpBody(attestation: Option<string>, status: Option<string>, error: Option<string>,
                               message: Option<string>)

  /** Upper case as far as the sentinel needs it: ASCII letters, and dotless i, whose upper case is `I`. */
  function Upper(c: char): char {
    if 'a' <= c <= 'z' then (c as int - 32) as char else if c == '\U{131}' then 'I' else c
  }

  predicate IsSentinel(s: string) {
    |s| == 7 && forall i :: 0 <= i < 7 ==> Upper(s[i]) == "PENDING"[i]
  }

  predicate Ready(body: Option<HttpBody>) {
    && body.Some?
    && (body.value.status == None || body.value.status == Some("complete"))
    && Truthy(body.value.attestation) && !IsSentinel(body.value.attestation.value)
  }

  function IrisStatusFromHttp(httpStatus: int, body: Option<HttpBody>, retryAfterSeconds: Option<int>): IrisStatus {
    if httpStatus == 200 then
      if Ready(body) then IrisComplete(body.value.attestation.value, body.value.message) else IrisPending
    else if httpStatus == 404 then IrisPending
    else if httpStatus == 429 then
      IrisBackoff((if retryAfterSeconds.Some? then retryAfterSeconds.value else 5) * 1000)
    else if httpStatus == 401 || httpStatus == 403 then IrisBackoff(60_000)
    else if httpStatus >= 500 then IrisPending
    else if httpStatus == 400 && body.Some? && Truthy(body.value.error) then IrisError(body.value.error.value)
    else IrisBackoff(30_000)
  }

  /** The answers that reach a transfer: a completed one carries a real attestation. */
  predicate RealAnswer(iris: IrisStatus) {
    iris.IrisComplete? ==> iris.attestation != "" && !IsSentinel(iris.attestation)
  }

  /** Complete means attested, terminal means the request itself was refused with a reason; everything else waits. */
  lemma IrisMeaning(httpStatus: int, body: Option<HttpBody>, retry: Option<int>)
    ensures var iris := IrisStatusFromHttp(httpStatus, body, retry);
            && RealAnswer(iris)
            && (iris.IrisComplete? <==> httpStatus == 200 && Ready(body))
            && (iris.IrisError? <==> httpStatus == 400 && body.Some? && Truthy(body.value.error))
  {
    hide IsSentinel;
  }

  // ---------------------------------------------------------------- reconciliation

  function AttestationPatch(iris: IrisStatus): Patch
    requires iris.IrisComplete?
  {
    NO_PATCH.(attestation := Put(Some(iris.attestation)), message := Put(iris.message))
  }

  function AttestationIfComplete(iris: IrisStatus): Patch {
    if iris.IrisComplete? then AttestationPatch(iris) else NO_PATCH
  }

  function Reconcile(t: Transfer, iris: IrisStatus, nonceUsedOnChain: bool): (r: Outcome)
    ensures r.Moved?
  {
    if nonceUsedOnChain && t.state != Delivered then
      if t.state == Failed then Transition(t, Delivered, AttestationIfComplete(iris)) else
      var attested := if t.state == Pending then Transition(t, Attested, AttestationIfComplete(iris)) else Moved(t);
      if attested.Illegal? then attested else
      var cur := attested.transfer;
      var filled := if cur.state == Attested && iris.IrisComplete? && !Truthy(cur.attestation)
        then cur.(attestation := Some(iris.attestation), message := iris.message) else cur;
      var submitting := if filled.state == Attested then Transition(filled, Submitting, NO_PATCH) else Moved(filled);
      if submitting.Illegal? then submitting else
      Transition(submitting.transfer, Delivered,
        if !Truthy(submitting.transfer.attestation) then AttestationIfComplete(iris) else NO_PATCH)
    else if t.state == Pending then
      if iris.IrisComplete? then Transition(t, Attested, AttestationPatch(iris))
      else if iris.IrisError? then Transition(t, Failed, NO_PATCH.(lastError := Put(Some(iris.error))))
      else Moved(t.(attempts := t.attempts + 1))
    else Moved(t)
  }

  // ---------------------------------------------------------------- laws of the choke point

  /** States one can pass through by legal edges, ends included. */
  predicate LegalPath(path: seq<State>) {
    path != [] && forall i :: 0 <= i < |path| - 1 ==> path[i + 1] in LegalTransitions(path[i])
  }

  ghost predicate Reaches(from: State, to: State) {
    exists path :: LegalPath(path) && path[0] == from && path[|path| - 1] == to
  }

  lemma ReachesSelf(s: State)
    ensures Reaches(s, s)
  {
    assert LegalPath([s]);
  }

  lemma ReachesFurther(from: State, mid: State, to: State)
    requires Reaches(from, mid) && to in LegalTransitions(mid)
    ensures Reaches(from, to)
  {
    var path :| LegalPath(path) && path[0] == from && path[|path| - 1] == mid;
    assert LegalPath(path + [to]);
  }

  /** Delivered is left by no path, failed only towards delivered. */
  lemma TerminalStates(path: seq<State>)
    requires LegalPath(path)
    ensures path[0] == Delivered ==> path == [Delivered]
    ensures path[0] == Failed ==> path == [Failed] || path == [Failed, Delivered]
  {
    assert |path| > 2 ==> path[2] in LegalTransitions(path[1]);
    assert |path| > 1 ==> path[1] in LegalTransitions(path[0]);
  }

  // ---------------------------------------------------------------- laws of reconciliation

  /** From every state and on every answer reconciliation finds a legal way; a consumed nonce always ends delivered. */
  lemma ReconcileNeverIllegal(t: Transfer, iris: IrisStatus, used: bool)
    ensures var n := Reconcile(t, iris, used).transfer;
            && n.id == t.id && Reaches(t.state, n.state)
            && (used ==> n.state == Delivered)
            && (n.state == Delivered ==> used || t.state == Delivered)
            && (t.state == Delivered ==> n == t)
            && n.depositTxHash == t.depositTxHash && n.mintTxHash == t.mintTxHash
            && (!used && t.state != Pending ==> n == t)
  {
    ReachesSelf(t.state);
    ReconcilePath(t.state);
  }

  lemma ReconcilePath(s: State)
    ensures s == Pending ==> Reaches(s, Attested) && Reaches(s, Failed)
    ensures Reaches(s, Delivered)
  {
    ReachesSelf(s);
    match s
    case Pending =>
      ReachesFurther(s, Pending, Attested); ReachesFurther(s, Pending, Failed);
      ReachesFurther(s, Attested, Submitting); ReachesFurther(s, Submitting, Delivered);
    case Attested => ReachesFurther(s, Attested, Submitting); ReachesFurther(s, Submitting, Delivered);
    case Submitting => ReachesFurther(s, Submitting, Delivered);
    case Delivered =>
    case Failed => ReachesFurther(s, Failed, Delivered);
  }

  /** A stored attestation never disappears, and the answer of this very poll is not lost on the way to delivered. */
  lemma AttestationKept(t: Transfer, iris: IrisStatus, used: bool)
    requires RealAnswer(iris)
    ensures var n := Reconcile(t, iris, used).transfer;
            && (Truthy(t.attestation) ==> Truthy(n.attestation))
            && (iris.IrisComplete? && (t.state == Pending || (used && t.state != Delivered)) ==> Truthy(n.attestation))
  {
    hide IsSentinel;
  }

  /**
   * A stored message, on the other hand, is overwritten by `undefined` exactly when a completed answer without a
   * message reaches a row that is pending, failed with its nonce consumed, or on its way without an attestation.
   */
  lemma MessageLostExactly(t: Transfer, iris: IrisStatus, used: bool)
    requires t.message.Some?
    ensures Reconcile(t, iris, used).transfer.message == None
            <==> && iris.IrisComplete? && iris.message == None
                 && (|| t.state == Pending
                     || (used && t.state == Failed)
                     || (used && t.state in {Attested, Submitting} && !Truthy(t.attestation)))
  {
  }
}
