/**
 * The ledger's asset record: its fields, the issuance arithmetic
 * (`available_shares`, `can_issue`) and the record's sanity check.
 */
module AssetRecords {
  import opened Int64
  import opened Wrappers
  import opened Decimal

  /** The reserved link to a prediction-market definition; only whether it is present matters. */
  datatype Prediction = Prediction(baseAssetId: int)

  datatype AssetRecord = AssetRecord(
    id: int,
    symbol: string,
    name: string,
    issuerAccountId: int,
    precision: nat,
    currentShareSupply: I64,
    maximumShareSupply: I64,
    collectedFees: I64,
    transactionFee: I64,
    marketFee: int,
    lastProposalId: int,
    prediction: Option<Prediction>)

  /** An amount of one asset, in the asset's smallest units. */
  datatype Asset = Asset(amount: I64, assetId: int)

  /**
   * What the sanity check needs from the rest of the chain: whether an
   * account exists, the reserved market issuer, and the two ledger-wide caps.
   */
  datatype Chain = Chain(
    accountExists: int -> bool,
    marketIssuerId: int,
    maxShares: int,
    maxMarketFee: int)

  // ---------------------------------------------------------------------------
  // Issuance arithmetic
  // ---------------------------------------------------------------------------

  /** The supply that may still be issued; a 64-bit difference, so it wraps on an invalid record. */
  function AvailableShares(r: AssetRecord): (s: I64)
    ensures 0 <= r.currentShareSupply <= r.maximumShareSupply ==>
              s == r.maximumShareSupply - r.currentShareSupply && 0 <= s <= r.maximumShareSupply
    ensures r.maximumShareSupply < r.currentShareSupply && r.maximumShareSupply - r.currentShareSupply >= Min ==> s < 0
  {
    Wrap(r.maximumShareSupply - r.currentShareSupply)
  }

  /**
   * Whether `amount` more shares may be issued. The new supply is computed in
   * 64 bits and must come out strictly above the old one, which rejects a sum
   * that wrapped around, before it is compared with the maximum.
   */
  function CanIssue(r: AssetRecord, amount: I64): (ok: bool)
    ensures ok <==> amount > 0 && r.currentShareSupply + amount <= r.maximumShareSupply
  {
    if amount <= 0 then false
    else
      var newShareSupply := Wrap(r.currentShareSupply + amount);
      newShareSupply > r.currentShareSupply && newShareSupply <= r.maximumShareSupply
  }

  /** The overload on an `asset`: it must be an amount of this very asset. */
  function CanIssueAsset(r: AssetRecord, amount: Asset): (ok: bool)
    ensures ok <==> amount.assetId == r.id && amount.amount > 0
                    && r.currentShareSupply + amount.amount <= r.maximumShareSupply
  {
    if r.id != amount.assetId then false else CanIssue(r, amount.amount)
  }

  /**
   * A sum beyond the 64-bit range wraps to a value no larger than the old
   * supply, so the monotonicity test rejects it whatever the maximum is.
   */
  lemma OverflowRejected(r: AssetRecord, amount: I64)
    requires amount > 0 && r.currentShareSupply + amount > Max
    ensures Wrap(r.currentShareSupply + amount) < r.currentShareSupply
    ensures Wrap(r.currentShareSupply + amount) == r.currentShareSupply + amount - Modulus
    ensures !CanIssue(r, amount)
  {
  }

  // ---------------------------------------------------------------------------
  // Sanity check
  // ---------------------------------------------------------------------------

  /** The invariants the sanity check asserts, one constructor per assertion. */
  datatype Rule =
    | IdNonNegative
    | SymbolNonEmpty
    | NameNonEmpty
    | IssuerKnown
    | PrecisionPowerOfTen
    | MaximumSupplyInRange
    | CurrentSupplyInRange
    | CollectedFeesInRange
    | TransactionFeeInRange
    | MarketFeeInRange
    | NoProposal
    | NoPrediction

  /** The position at which the sanity check asserts each rule. */
  function Rank(rule: Rule): (n: nat)
  {
    match rule
    case IdNonNegative => 0
    case SymbolNonEmpty => 1
    case NameNonEmpty => 2
    case IssuerKnown => 3
    case PrecisionPowerOfTen => 4
    case MaximumSupplyInRange => 5
    case CurrentSupplyInRange => 6
    case CollectedFeesInRange => 7
    case TransactionFeeInRange => 8
    case MarketFeeInRange => 9
    case NoProposal => 10
    case NoPrediction => 11
  }

  /** What each rule demands of a record. */
  predicate Holds(r: AssetRecord, chain: Chain, rule: Rule)
  {
    match rule
    case IdNonNegative => r.id >= 0
    case SymbolNonEmpty => r.symbol != []
    case NameNonEmpty => r.name != []
    case IssuerKnown =>
      r.id == 0 || r.issuerAccountId == chain.marketIssuerId || chain.accountExists(r.issuerAccountId)
    case PrecisionPowerOfTen => IsPowerOfTen(r.precision)
    case MaximumSupplyInRange => 0 <= r.maximumShareSupply <= chain.maxShares
    case CurrentSupplyInRange => 0 <= r.currentShareSupply <= r.maximumShareSupply
    case CollectedFeesInRange => 0 <= r.collectedFees <= r.currentShareSupply
    case TransactionFeeInRange => 0 <= r.transactionFee <= r.maximumShareSupply
    case MarketFeeInRange => r.marketFee <= chain.maxMarketFee
    case NoProposal => r.lastProposalId == 0
    case NoPrediction => r.prediction.None?
  }

  /** The outcome of a sanity check: the record passes, or the first rule it breaks. */
  datatype Verdict = Sane | Violates(rule: Rule)

  /**
   * Checks the record's invariants in order and reports the first that fails;
   * the existence of the issuer account is asked of the chain only when the
   * record is not the base asset and its issuer is not the market.
   */
  function SanityCheck(r: AssetRecord, chain: Chain): (v: Verdict)
    ensures v.Violates? ==> !Holds(r, chain, v.rule)
    ensures v.Sane? <==> forall rule :: Holds(r, chain, rule)
    ensures v.Violates? ==> forall rule :: Rank(rule) < Rank(v.rule) ==> Holds(r, chain, rule)
  {
    if r.id < 0 then Violates(IdNonNegative)
    else if r.symbol == [] then Violates(SymbolNonEmpty)
    else if r.name == [] then Violates(NameNonEmpty)
    else if !(r.id == 0 || r.issuerAccountId == chain.marketIssuerId || chain.accountExists(r.issuerAccountId)) then
      Violates(IssuerKnown)
    else if !IsPowerOfTen(r.precision) then Violates(PrecisionPowerOfTen)
    else if !(r.maximumShareSupply >= 0 && r.maximumShareSupply <= chain.maxShares) then Violates(MaximumSupplyInRange)
    else if !(r.currentShareSupply >= 0 && r.currentShareSupply <= r.maximumShareSupply) then Violates(CurrentSupplyInRange)
    else if !(r.collectedFees >= 0 && r.collectedFees <= r.currentShareSupply) then Violates(CollectedFeesInRange)
    else if !(r.transactionFee >= 0 && r.transactionFee <= r.maximumShareSupply) then Violates(TransactionFeeInRange)
    else if !(r.marketFee <= chain.maxMarketFee) then Violates(MarketFeeInRange)
    else if r.lastProposalId != 0 then Violates(NoProposal)
    else if r.prediction.Some? then Violates(NoPrediction)
    else Sane
  }

  /**
   * On a record that passes the sanity check the remaining supply is the
   * plain difference, is never negative, and bounds exactly what may be issued.
   */
  lemma SaneSupply(r: AssetRecord, chain: Chain, amount: I64)
    requires SanityCheck(r, chain).Sane?
    ensures AvailableShares(r) == r.maximumShareSupply - r.currentShareSupply >= 0
    ensures CanIssue(r, amount) <==> 0 < amount <= AvailableShares(r)
  {
    assert Holds(r, chain, CurrentSupplyInRange);
  }

  /** Records the sanity check turns away: a precision of 300, an empty symbol, oversupply, overcollected fees. */
  lemma SanityRejects(r: AssetRecord, chain: Chain)
    ensures r.precision == 300 ==> SanityCheck(r, chain) != Sane
    ensures r.id >= 0 && r.symbol == [] ==> SanityCheck(r, chain) == Violates(SymbolNonEmpty)
    ensures r.currentShareSupply > r.maximumShareSupply ==> SanityCheck(r, chain) != Sane
    ensures r.collectedFees > r.currentShareSupply ==> SanityCheck(r, chain) != Sane
  {
    if r.precision == 300 {
      assert !IsPowerOfTen(300) by {
        assert !IsPowerOfTen(3);
        assert !IsPowerOfTen(30);
      }
      assert !Holds(r, chain, PrecisionPowerOfTen);
    }
    if r.currentShareSupply > r.maximumShareSupply {
      assert !Holds(r, chain, CurrentSupplyInRange);
    }
    if r.collectedFees > r.currentShareSupply {
      assert !Holds(r, chain, CollectedFeesInRange);
    }
  }
}
