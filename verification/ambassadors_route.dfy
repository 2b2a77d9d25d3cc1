/** The `/cron` POST handler of `src/http/routes/ambassadors.ts`: the checks
    that admit a request to expire inactive referrals, and the response it
    sends. The Discord client, the headers, the clock, the signature check
    and the database are inputs. */
module AmbassadorsRoute {
  import opened Wrappers
  import opened Sequences

  const TIMESTAMP_TOLERANCE_IN_MS: int := 1000 * 30

  const OK: int := 200
  const BAD_REQUEST: int := 400
  const BAD_GATEWAY: int := 502

  /** `Number(header)`: an integral number or `NaN`. */
  datatype JsNumber = Finite(value: int) | NaN

  /** What `nacl.sign.detached.verify` makes of the two headers when both are
      strings: the signature verifies, it does not, or the call throws (as
      it does for a signature that is not 64 bytes long). */
  datatype SignatureCheck = Verified | NotVerified | VerifierThrew

  datatype CronRequest = CronRequest(
    hasDiscordClient: bool,
    signature: Option<string>,       // `x-level9-signature`, `None` when absent
    timestamp: Option<string>,       // `x-level9-timestamp`, `None` when absent
    signatureCheck: SignatureCheck,  // the verifier's verdict on the two headers
    timestampValue: JsNumber)        // `Number` of the timestamp header

  /** `'NOTOK'` or `` `OK (${n})` ``. */
  datatype Body = NotOk | OkCount(n: nat)

  /** A reply, or an exception escaping the handler before any reply. */
  datatype Response = Reply(status: int, body: Body) | Raised

  /** The outcome of the checks: go on to process referrals, or stop here. */
  datatype Admission = Proceed | Stop(response: Response)

  /** A header is truthy when present and non-empty. */
  predicate IsTruthy(h: Option<string>)
  {
    h.Some? && h.value != ""
  }

  /** Lines 30-37: `Buffer.from` throws on an absent header before the
      verifier runs; otherwise the verifier decides. */
  function SignatureStep(req: CronRequest): (c: SignatureCheck)
    ensures req.signature.None? || req.timestamp.None? ==> c == VerifierThrew
    ensures c == Verified ==> req.signature.Some? && req.timestamp.Some?
    ensures req.signature.Some? && req.timestamp.Some? ==> c == req.signatureCheck
  {
    if req.signature.None? || req.timestamp.None? then VerifierThrew else req.signatureCheck
  }

  /** Lines 44-49, negated: the timestamp is at most the tolerance away from
      `now`, bounds included; `NaN` fails both comparisons and so passes. */
  predicate IsFresh(ts: JsNumber, now: int)
    ensures IsFresh(ts, now) <==>
      ts.NaN? || now - TIMESTAMP_TOLERANCE_IN_MS <= ts.value <= now + TIMESTAMP_TOLERANCE_IN_MS
  {
    match ts
    case NaN => true
    case Finite(v) => !(v + TIMESTAMP_TOLERANCE_IN_MS < now || v > now + TIMESTAMP_TOLERANCE_IN_MS)
  }

  /** One check of the handler: whether it passes and what is sent when it
      does not. */
  datatype Check = Check(passes: bool, onFailure: Response)

  /** Checks run in order and the first failing one decides. */
  function FirstFailure(checks: seq<Check>): (a: Admission)
    ensures a == Proceed <==> forall i :: 0 <= i < |checks| ==> checks[i].passes
    ensures a.Stop? ==> exists i :: (0 <= i < |checks| && !checks[i].passes && a.response == checks[i].onFailure &&
              forall j :: 0 <= j < i ==> checks[j].passes)
  {
    if checks == [] then Proceed
    else if !checks[0].passes then Stop(checks[0].onFailure)
    else
      var rest := FirstFailure(checks[1..]);
      assert rest.Stop? ==> exists i :: (1 <= i < |checks| && !checks[i].passes && rest.response == checks[i].onFailure &&
               forall j :: 0 <= j < i ==> checks[j].passes) by {
        if rest.Stop? {
          var i :| 0 <= i < |checks| - 1 && !checks[1..][i].passes && rest.response == checks[1..][i].onFailure &&
                   forall j :: 0 <= j < i ==> checks[1..][j].passes;
          assert forall j :: 1 <= j < i + 1 ==> checks[j].passes by {
            forall j | 1 <= j < i + 1 ensures checks[j].passes {
              assert checks[j] == checks[1..][j - 1];
            }
          }
        }
      }
      rest
  }

  /** The checks of lines 19-52 in their order: the header check is the one
      written with `&&`, `headersRejected` says when it fails. */
  function CronChecks(req: CronRequest, now: int, headersRejected: bool): seq<Check>
  {
    [ Check(req.hasDiscordClient, Reply(BAD_GATEWAY, NotOk)),
      Check(!headersRejected, Reply(BAD_REQUEST, NotOk)),
      Check(SignatureStep(req) != VerifierThrew, Raised),
      Check(SignatureStep(req) == Verified, Reply(BAD_REQUEST, NotOk)),
      Check(IsFresh(req.timestampValue, now), Reply(BAD_REQUEST, NotOk)) ]
  }

  /** Lines 16-52 as written: the header check rejects only a request with
      neither header. */
  function AdmitAsWritten(req: CronRequest, now: int): (a: Admission)
    ensures !req.hasDiscordClient ==> a == Stop(Reply(BAD_GATEWAY, NotOk))
    ensures req.hasDiscordClient && !IsTruthy(req.signature) && !IsTruthy(req.timestamp) ==>
              a == Stop(Reply(BAD_REQUEST, NotOk))
    ensures a == Stop(Raised) <==>
      req.hasDiscordClient && (IsTruthy(req.signature) || IsTruthy(req.timestamp)) && SignatureStep(req) == VerifierThrew
    ensures a == Proceed <==>
      && req.hasDiscordClient
      && req.signature.Some? && req.timestamp.Some?
      && (IsTruthy(req.signature) || IsTruthy(req.timestamp))
      && req.signatureCheck == Verified
      && IsFresh(req.timestampValue, now)
  {
    if !req.hasDiscordClient then Stop(Reply(BAD_GATEWAY, NotOk))
    else if !IsTruthy(req.signature) && !IsTruthy(req.timestamp) then Stop(Reply(BAD_REQUEST, NotOk))
    else match SignatureStep(req)
      case VerifierThrew => Stop(Raised)
      case NotVerified => Stop(Reply(BAD_REQUEST, NotOk))
      case Verified => if IsFresh(req.timestampValue, now) then Proceed else Stop(Reply(BAD_REQUEST, NotOk))
  }

  /** The handler's checks run in the order client, headers, signature,
      freshness, and the first that fails decides the answer. */
  lemma CheckOrder(req: CronRequest, now: int)
    ensures AdmitAsWritten(req, now) ==
            FirstFailure(CronChecks(req, now, !IsTruthy(req.signature) && !IsTruthy(req.timestamp)))
    ensures AdmitCorrected(req, now) ==
            FirstFailure(CronChecks(req, now, !IsTruthy(req.signature) || !IsTruthy(req.timestamp)))
  {
    FiveChecks(CronChecks(req, now, !IsTruthy(req.signature) && !IsTruthy(req.timestamp)));
    FiveChecks(CronChecks(req, now, !IsTruthy(req.signature) || !IsTruthy(req.timestamp)));
  }

  lemma FiveChecks(cs: seq<Check>)
    requires |cs| == 5
    ensures FirstFailure(cs) ==
      if !cs[0].passes then Stop(cs[0].onFailure)
      else if !cs[1].passes then Stop(cs[1].onFailure)
      else if !cs[2].passes then Stop(cs[2].onFailure)
      else if !cs[3].passes then Stop(cs[3].onFailure)
      else if !cs[4].passes then Stop(cs[4].onFailure)
      else Proceed
  {
    assert cs[1..][1..] == cs[2..];
    assert cs[2..][1..] == cs[3..];
    assert cs[3..][1..] == cs[4..];
    assert cs[4..][1..] == [];
  }

  /** With the client present and exactly one header absent, the request
      passes the header check and the handler then throws instead of
      answering. */
  lemma OneHeaderMissingRaises(req: CronRequest, now: int)
    requires req.hasDiscordClient
    requires (req.signature.None? && IsTruthy(req.timestamp)) || (IsTruthy(req.signature) && req.timestamp.None?)
    ensures AdmitAsWritten(req, now) == Stop(Raised)
    ensures AdmitCorrected(req, now) == Stop(Reply(BAD_REQUEST, NotOk))
  {
  }

  /** Lines 16-52 with the header check as evidently intended (`||`): a
      request lacking either header is answered 400, and only the verifier
      itself can make the handler throw. */
  function AdmitCorrected(req: CronRequest, now: int): (a: Admission)
    ensures !req.hasDiscordClient ==> a == Stop(Reply(BAD_GATEWAY, NotOk))
    ensures req.hasDiscordClient && (!IsTruthy(req.signature) || !IsTruthy(req.timestamp)) ==>
              a == Stop(Reply(BAD_REQUEST, NotOk))
    ensures a == Stop(Raised) ==> req.signatureCheck == VerifierThrew
    ensures a == Proceed <==>
      && req.hasDiscordClient
      && IsTruthy(req.signature) && IsTruthy(req.timestamp)
      && req.signatureCheck == Verified
      && IsFresh(req.timestampValue, now)
  {
    if !req.hasDiscordClient then Stop(Reply(BAD_GATEWAY, NotOk))
    else if !IsTruthy(req.signature) || !IsTruthy(req.timestamp) then Stop(Reply(BAD_REQUEST, NotOk))
    else match SignatureStep(req)
      case VerifierThrew => Stop(Raised)
      case NotVerified => Stop(Reply(BAD_REQUEST, NotOk))
      case Verified => if IsFresh(req.timestampValue, now) then Proceed else Stop(Reply(BAD_REQUEST, NotOk))
  }

  /** The correction changes nothing for requests with both headers or
      neither. */
  lemma AdmissionsAgree(req: CronRequest, now: int)
    requires IsTruthy(req.signature) == IsTruthy(req.timestamp)
    ensures AdmitAsWritten(req, now) == AdmitCorrected(req, now)
  {
  }

  /** A referral row as selected at lines 59-65. */
  datatype Referral = Referral(id: string, forwardTo: string, createdBy: Option<string>)

  /** `Boolean(created_by)`. */
  function HasOwner(r: Referral): bool
  {
    IsTruthy(r.createdBy)
  }

  /** Lines 57-66: the rows with a truthy `created_by`, in query order; no
      rows at all when the query yields nothing. */
  function InactiveReferrals(rows: Option<seq<Referral>>): (r: seq<Referral>)
    ensures rows.None? ==> r == []
    ensures rows.Some? ==> |r| <= |rows.value|
    ensures forall i :: 0 <= i < |r| ==> HasOwner(r[i]) && rows.Some? && r[i] in rows.value
    ensures rows.Some? ==> forall i :: 0 <= i < |rows.value| && HasOwner(rows.value[i]) ==> rows.value[i] in r
  {
    match rows
    case None => []
    case Some(rs) => Filter(HasOwner, rs)
  }

  /** The work after the checks: the query returned `rows` and every later
      Discord and database call returned, or one of them threw. */
  datatype Processing = Completed(rows: Option<seq<Referral>>) | Failed

  /** The whole handler, on the corrected checks: a rejected request gets
      the check's answer; an admitted one gets 502 when the work throws and
      otherwise 200 with the number of owned inactive referrals. */
  function HandleCron(req: CronRequest, now: int, processing: Processing): (r: Response)
    ensures AdmitCorrected(req, now).Stop? ==> r == AdmitCorrected(req, now).response
    ensures AdmitCorrected(req, now) == Proceed && processing.Failed? ==> r == Reply(BAD_GATEWAY, NotOk)
    ensures AdmitCorrected(req, now) == Proceed && processing.Completed? ==>
              r == Reply(OK, OkCount(|InactiveReferrals(processing.rows)|))
    ensures r.Reply? && r.status == OK ==> AdmitCorrected(req, now) == Proceed && IsFresh(req.timestampValue, now)
  {
    match AdmitCorrected(req, now)
    case Stop(response) => response
    case Proceed =>
      match processing
      case Failed => Reply(BAD_GATEWAY, NotOk)
      case Completed(rows) => Reply(OK, OkCount(|InactiveReferrals(rows)|))
  }
}
