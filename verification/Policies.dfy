/**
 The providers' verdict policies and what their merge inherits from them
 (pkg/compliance/elliptic, pkg/compliance/didit, pkg/compliance/merkle).
 Scores are reals; string comparisons against tags and statuses are booleans.
 */
module Policies {
  import opened Options
  import opened Verdicts

  /** Cut points; zero is unset. */
  datatype Cuts = Cuts(review: real, reject: real)

  /** The score switch every policy ends with. */
  function OnScore(score: real, th: Cuts): Verdict {
    if th.reject > 0.0 && score >= th.reject then Rejected
    else if th.review > 0.0 && score >= th.review then Review
    else if th.reject == 0.0 && th.review == 0.0 then Review
    else Approved
  }

  // --- Elliptic ---

  /** `clusters` holds, per clustered entity, its number of sanctions entries. */
  datatype WalletResponse = WalletResponse(
    riskScore: Option<real>, clusters: seq<nat>, processStatus: string, error: Option<string>)

  datatype TransactionResponse = TransactionResponse(
    riskScore: Option<real>, sanctions: nat, processStatus: string, error: Option<string>, predictive: bool)

  predicate IsSanctioned(resp: WalletResponse) { exists i | 0 <= i < |resp.clusters| :: resp.clusters[i] > 0 }

  /** No final analysis: another status than complete, or an error message. */
  predicate Unfinished(resp: WalletResponse) {
    (resp.processStatus != "" && resp.processStatus != "complete") || (resp.error.Some? && resp.error.value != "")
  }

  function WalletVerdict(resp: WalletResponse, th: Cuts): Verdict {
    if resp.processStatus != "" && resp.processStatus != "complete" then Pending
    else if resp.error.Some? && resp.error.value != "" then Pending
    else if IsSanctioned(resp) then Rejected
    else if resp.riskScore == None then Review
    else OnScore(resp.riskScore.value, th)
  }

  function AsWallet(resp: TransactionResponse): WalletResponse {
    WalletResponse(resp.riskScore, [], resp.processStatus, resp.error)
  }

  function TransactionVerdict(resp: TransactionResponse, th: Cuts): Verdict {
    if resp.sanctions > 0 then Rejected
    else if resp.predictive then Pending
    else WalletVerdict(AsWallet(resp), th)
  }

  // --- Didit ---

  datatype DiditResponse = DiditResponse(riskScore: Option<int>, status: string, sanctionsHit: bool)

  function DiditVerdict(resp: DiditResponse, review: int, reject: int): Verdict {
    if resp.sanctionsHit then Rejected
    else if resp.status != "SCREENED" || resp.riskScore == None then Pending
    else OnScore(resp.riskScore.value as real, Cuts(review as real, reject as real))
  }

  // --- Merkle ---

  datatype Tag = Tag(sanctions: bool, indirect: bool)

  datatype MerkleResponse = MerkleResponse(
    riskLevel: Option<int>, hasHistory: bool, owner: Option<Tag>, user: Option<Tag>,
    originator: seq<Tag>, beneficiary: seq<Tag>)

  predicate Exposed(tags: seq<Tag>, indirect: bool) {
    exists i | 0 <= i < |tags| :: tags[i].sanctions && tags[i].indirect == indirect
  }

  predicate MerkleSanctioned(resp: MerkleResponse) {
    || (resp.owner.Some? && resp.owner.value.sanctions)
    || (resp.user.Some? && resp.user.value.sanctions)
    || Exposed(resp.originator, false) || Exposed(resp.beneficiary, false)
  }

  function MerkleVerdict(resp: MerkleResponse, review: int, reject: int, isAddress: bool): Verdict {
    if MerkleSanctioned(resp) then Rejected
    else if Exposed(resp.originator, true) || Exposed(resp.beneficiary, true) then Review
    else if isAddress && !resp.hasHistory && resp.originator == [] && resp.beneficiary == [] then Unscreenable
    else if resp.riskLevel == None then Pending
    else OnScore(resp.riskLevel.value as real, Cuts(review as real, reject as real))
  }

  // --- Any provider ---

  datatype Reply =
    | EllipticWallet(wallet: WalletResponse, th: Cuts)
    | EllipticWalletUnknown                              // not in blockchain
    | EllipticTransaction(transaction: TransactionResponse, th: Cuts)
    | EllipticTransactionUnknown
    | Didit(screened: DiditResponse, review: int, reject: int)
    | Merkle(assessed: MerkleResponse, review: int, reject: int, isAddress: bool)

  function VerdictOn(reply: Reply): Verdict {
    match reply
    case EllipticWallet(resp, th) => WalletVerdict(resp, th)
    case EllipticWalletUnknown => Unscreenable
    case EllipticTransaction(resp, th) => TransactionVerdict(resp, th)
    case EllipticTransactionUnknown => Pending
    case Didit(resp, review, reject) => DiditVerdict(resp, review, reject)
    case Merkle(resp, review, reject, isAddress) => MerkleVerdict(resp, review, reject, isAddress)
  }

  predicate SanctionsIn(reply: Reply) {
    match reply
    case EllipticWallet(resp, _) => IsSanctioned(resp)
    case EllipticTransaction(resp, _) => resp.sanctions > 0
    case Didit(resp, _, _) => resp.sanctionsHit
    case Merkle(resp, _, _, _) => MerkleSanctioned(resp)
    case _ => false
  }

  function ScoreIn(reply: Reply): Option<real> {
    match reply
    case EllipticWallet(resp, _) => resp.riskScore
    case EllipticTransaction(resp, _) => resp.riskScore
    case Didit(resp, _, _) => if resp.riskScore.Some? then Some(resp.riskScore.value as real) else None
    case Merkle(resp, _, _, _) => if resp.riskLevel.Some? then Some(resp.riskLevel.value as real) else None
    case _ => None
  }

  function CutsOf(reply: Reply): Cuts {
    match reply
    case EllipticWallet(_, th) => th
    case EllipticTransaction(_, th) => th
    case Didit(_, review, reject) => Cuts(review as real, reject as real)
    case Merkle(_, review, reject, _) => Cuts(review as real, reject as real)
    case _ => Cuts(0.0, 0.0)
  }

  /** The reply with the score struck out. */
  function Unscored(reply: Reply): Reply {
    match reply
    case EllipticWallet(resp, _) => reply.(wallet := resp.(riskScore := None))
    case EllipticTransaction(resp, _) => reply.(transaction := resp.(riskScore := None))
    case Didit(resp, _, _) => reply.(screened := resp.(riskScore := None))
    case Merkle(resp, _, _, _) => reply.(assessed := resp.(riskLevel := None))
    case _ => reply
  }

  /** The same reply but for a higher score. */
  ghost predicate Raised(a: Reply, b: Reply) {
    Unscored(a) == Unscored(b) && ScoreIn(a).Some? && ScoreIn(b).Some? && ScoreIn(a).value <= ScoreIn(b).value
  }

  lemma RaisedNeverLower(a: Reply, b: Reply)
    requires Raised(a, b)
    ensures Rank(VerdictOn(a)) <= Rank(VerdictOn(b))
  {
  }

  function VerdictsOn(replies: seq<Reply>): seq<Verdict> {
    seq(|replies|, i requires 0 <= i < |replies| => VerdictOn(replies[i]))
  }

  /** Raising one provider's score never lowers the merged rank, whatever the cut points. */
  lemma RaisingOneScore(replies: seq<Reply>, i: nat, raised: Reply)
    requires i < |replies| && Raised(replies[i], raised)
    ensures Rank(Strictest(VerdictsOn(replies))) <= Rank(Strictest(VerdictsOn(replies[i := raised])))
  {
    RaisedNeverLower(replies[i], raised);
    Monotone(VerdictsOn(replies), VerdictsOn(replies[i := raised]));
  }

  // --- Approval ---

  /** The provider has finished, and found nothing that decides before the score. */
  predicate Scorable(reply: Reply) {
    match reply
    case EllipticWallet(resp, _) => !Unfinished(resp)
    case EllipticTransaction(resp, _) => !resp.predictive && !Unfinished(AsWallet(resp))
    case Didit(resp, _, _) => resp.status == "SCREENED"
    case Merkle(resp, _, _, isAddress) =>
      !Exposed(resp.originator, true) && !Exposed(resp.beneficiary, true)
      && (!isAddress || resp.hasHistory || resp.originator != [] || resp.beneficiary != [])
    case _ => false
  }

  predicate Reaches(reply: Reply, cut: real) { ScoreIn(reply).Some? && cut > 0.0 && ScoreIn(reply).value >= cut }

  /** An approval takes a final, unsanctioned reply whose score is under every cut
      that is set, and not both cuts zero. */
  lemma PolicyApprovesExactly(reply: Reply)
    ensures VerdictOn(reply) == Approved <==>
      && Scorable(reply) && !SanctionsIn(reply) && ScoreIn(reply).Some?
      && !Reaches(reply, CutsOf(reply).reject) && !Reaches(reply, CutsOf(reply).review)
      && CutsOf(reply) != Cuts(0.0, 0.0)
  {
  }

  /** A rejection takes sanctions, or a final reply whose score reaches the hard cut. */
  lemma PolicyRejectsExactly(reply: Reply)
    ensures VerdictOn(reply) == Rejected <==>
      || (SanctionsIn(reply) && !(reply.EllipticWallet? && Unfinished(reply.wallet)))
      || (Scorable(reply) && Reaches(reply, CutsOf(reply).reject))
  {
  }

  /** A reply is unscreenable where the provider knows nothing of the address: Elliptic's
      404, or an unsanctioned Merkle address without history or exposure. */
  lemma PolicyUnscreenableExactly(reply: Reply)
    ensures VerdictOn(reply) == Unscreenable <==>
      || reply.EllipticWalletUnknown?
      || (reply.Merkle? && reply.isAddress && !reply.assessed.hasHistory && !SanctionsIn(reply)
          && reply.assessed.originator == [] && reply.assessed.beneficiary == [])
  {
  }

  /** It is pending while the provider has not finished: an Elliptic analysis under way,
      failed, predictive or of an unknown transaction, an unscreened Didit address, or a
      score still missing where sanctions do not decide. */
  lemma PolicyPendingExactly(reply: Reply)
    ensures VerdictOn(reply) == Pending <==>
      match reply
      case EllipticWallet(resp, _) => Unfinished(resp)
      case EllipticTransaction(resp, _) => !SanctionsIn(reply) && (resp.predictive || Unfinished(AsWallet(resp)))
      case EllipticTransactionUnknown => true
      case Didit(resp, _, _) => !SanctionsIn(reply) && (resp.status != "SCREENED" || ScoreIn(reply) == None)
      case Merkle(_, _, _, _) => !SanctionsIn(reply) && Scorable(reply) && ScoreIn(reply) == None
      case _ => false
  {
  }

  /** Everything else goes to a person: the policies use no verdict they do not name. */
  lemma PolicyNamesVerdict(reply: Reply)
    ensures !VerdictOn(reply).Other?
    ensures VerdictOn(reply) == Review && ScoreIn(reply).Some? && Scorable(reply) ==>
      Reaches(reply, CutsOf(reply).review) || CutsOf(reply) == Cuts(0.0, 0.0)
  {
  }

  /** So a merge approves nothing unless every provider scored it, under cuts of its own. */
  lemma MergeApprovedOnlyUnderCuts(replies: seq<Reply>, i: nat)
    requires Strictest(VerdictsOn(replies)) == Approved && i < |replies|
    ensures !SanctionsIn(replies[i]) && ScoreIn(replies[i]).Some? && CutsOf(replies[i]) != Cuts(0.0, 0.0)
  {
    ApprovedExactly(VerdictsOn(replies));
    assert VerdictsOn(replies)[i] in VerdictsOn(replies);
    PolicyApprovesExactly(replies[i]);
  }

  // --- Sanctions ---

  /** A sanctioned reply is rejected at once unless it is an unfinished Elliptic
      wallet analysis, which reads its status first and stays pending. */
  lemma SanctionedRejectedExactly(reply: Reply)
    requires SanctionsIn(reply)
    ensures VerdictOn(reply) == Rejected <==> !(reply.EllipticWallet? && Unfinished(reply.wallet))
    ensures VerdictOn(reply) == Rejected || VerdictOn(reply) == Pending
  {
  }

  /** Sanctions are not absolute in the wallet policy, whatever its comment says. */
  lemma SanctionedButPending()
    ensures exists reply :: SanctionsIn(reply) && Strictest(VerdictsOn([reply])) != Rejected
  {
    var reply := EllipticWallet(WalletResponse(Some(10.0), [1], "running", None), Cuts(4.0, 8.0));
    assert reply.wallet.clusters[0] > 0;
    assert SanctionsIn(reply);
    StrictestRank(VerdictsOn([reply]), 2);
  }

  /** The parts are what the providers make of their replies. */
  ghost predicate Screened(parts: seq<Screening>, replies: seq<Reply>) {
    |parts| == |replies| && forall i | 0 <= i < |parts| ::
      parts[i].verdict == VerdictOn(replies[i]) && parts[i].sanctioned == SanctionsIn(replies[i])
  }

  lemma NoPartOutranks(parts: seq<Screening>, i: nat)
    requires i < |parts|
    ensures Rank(parts[i].verdict) <= Rank(Strictest(VerdictsOf(parts)))
  {
    StrictestIsMember(VerdictsOf(parts));
    assert VerdictsOf(parts)[i] in VerdictsOf(parts);
  }

  lemma RejectedPart(parts: seq<Screening>)
    ensures Strictest(VerdictsOf(parts)) == Rejected <==> exists i | 0 <= i < |parts| :: parts[i].verdict == Rejected
  {
    var vs := VerdictsOf(parts);
    StrictestIsMember(vs);
    if Strictest(vs) == Rejected {
      var k :| 0 <= k < |vs| && vs[k] == Rejected;
      assert parts[k].verdict == Rejected;
    }
    if i :| 0 <= i < |parts| && parts[i].verdict == Rejected {
      NoPartOutranks(parts, i);
    }
  }

  /** One sanctioned part and the whole is at least pending, never approved or
      unscreenable; it is rejected unless every sanctioned part is unfinished and
      nothing else rejects. */
  lemma SanctionedNeverPasses(parts: seq<Screening>, replies: seq<Reply>, address: string, txHash: string)
    requires Screened(parts, replies) && Merged(parts, address, txHash).sanctioned
    ensures Rank(Merged(parts, address, txHash).verdict) >= 2
    ensures Merged(parts, address, txHash).verdict == Rejected <==>
      exists i | 0 <= i < |parts| :: parts[i].verdict == Rejected
    ensures (exists i | 0 <= i < |replies| ::
      SanctionsIn(replies[i]) && !(replies[i].EllipticWallet? && Unfinished(replies[i].wallet)))
      ==> Merged(parts, address, txHash).verdict == Rejected
  {
    var verdict := Strictest(VerdictsOf(parts));
    RejectedPart(parts);
    var i :| 0 <= i < |parts| && parts[i].sanctioned;
    SanctionedRejectedExactly(replies[i]);
    NoPartOutranks(parts, i);
    forall j | 0 <= j < |replies| && SanctionsIn(replies[j]) &&
      !(replies[j].EllipticWallet? && Unfinished(replies[j].wallet))
      ensures verdict == Rejected
    {
      SanctionedRejectedExactly(replies[j]);
      assert parts[j].verdict == Rejected;
    }
  }
}
