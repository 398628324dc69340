/** The V1 auction state flattened into one list of bids (src/types/AuctionState.ts, `fromV1`). */
module Auctions {
  import opened Basics
  import opened CLValues

  const MINIMUM_DELEGATION := 500_000_000_000
  const MAXIMUM_DELEGATION := 1_000_000_000_000_000_000

  /** Who delegates: an account or a purse. */
  datatype DelegationKind = DelegationKind(publicKey: Option<PublicKey>, purse: Option<URef>)

  /** A delegation; vesting schedules are carried along unread. */
  datatype Delegator = Delegator(
    bondingPurse: URef, stakedAmount: nat, kind: DelegationKind, validatorPublicKey: PublicKey, vesting: Option<Bytes>)

  datatype Bid = Bid(
    bondingPurse: URef, delegationRate: nat, inactive: bool, stakedAmount: nat, validatorPublicKey: PublicKey,
    delegators: seq<Delegator>, vesting: Option<Bytes>)

  datatype PublicKeyAndBid = PublicKeyAndBid(publicKey: PublicKey, bid: Bid)

  datatype ValidatorBid = ValidatorBid(
    bondingPurse: URef, delegationRate: nat, inactive: bool, stakedAmount: nat, vesting: Option<Bytes>,
    reservedSlots: nat, validatorPublicKey: PublicKey, minimumDelegation: nat, maximumDelegation: nat)

  /** The two of `BidKind`'s slots that this conversion fills. */
  datatype BidKind = ValidatorKind(validator: ValidatorBid) | DelegatorKind(delegator: Delegator)

  datatype BidKindWrapper = BidKindWrapper(publicKey: PublicKey, bid: BidKind)

  datatype AuctionStateV1 = AuctionStateV1(
    bids: seq<PublicKeyAndBid>, blockHeight: nat, eraValidators: Bytes, stateRootHash: JsString)
  datatype AuctionState = AuctionState(
    bids: seq<BidKindWrapper>, blockHeight: nat, eraValidators: Bytes, stateRootHash: JsString)

  // ----------------------------------------------------------- specification

  function ValidatorEntry(p: PublicKeyAndBid): (w: BidKindWrapper) {
    BidKindWrapper(p.publicKey, ValidatorKind(ValidatorBid(
      p.bid.bondingPurse, p.bid.delegationRate, p.bid.inactive, p.bid.stakedAmount, p.bid.vesting, 0,
      p.bid.validatorPublicKey, MINIMUM_DELEGATION, MAXIMUM_DELEGATION)))
  }

  function DelegatorEntries(key: PublicKey, ds: seq<Delegator>): (ws: seq<BidKindWrapper>)
    ensures |ws| == |ds|
    ensures forall i :: 0 <= i < |ds| ==> ws[i] == BidKindWrapper(key, DelegatorKind(ds[i]))
  {
    seq(|ds|, i requires 0 <= i < |ds| => BidKindWrapper(key, DelegatorKind(ds[i])))
  }

  /** A validator's entry, then its delegators in order under the same key. */
  function EntriesOf(p: PublicKeyAndBid): (ws: seq<BidKindWrapper>) {
    [ValidatorEntry(p)] + DelegatorEntries(p.publicKey, p.bid.delegators)
  }

  function Flattened(bids: seq<PublicKeyAndBid>): (ws: seq<BidKindWrapper>) {
    if bids == [] then [] else Flattened(bids[..|bids| - 1]) + EntriesOf(bids[|bids| - 1])
  }

  // --------------------------------------------------------------- the loop

  method FromV1(v1: AuctionStateV1) returns (state: AuctionState)
    ensures state == AuctionState(Flattened(v1.bids), v1.blockHeight, v1.eraValidators, v1.stateRootHash)
  {
    var bids: seq<BidKindWrapper> := [];
    for i := 0 to |v1.bids|
      invariant bids == Flattened(v1.bids[..i])
    {
      ghost var before := bids;
      var pkAndBid := v1.bids[i];
      var bid := pkAndBid.bid;
      var validator := ValidatorBid(bid.bondingPurse, bid.delegationRate, bid.inactive, bid.stakedAmount, bid.vesting,
                                    0, bid.validatorPublicKey, MINIMUM_DELEGATION, MAXIMUM_DELEGATION);
      bids := bids + [BidKindWrapper(pkAndBid.publicKey, ValidatorKind(validator))];
      ghost var first := bids;
      var delegators := bid.delegators;
      ghost var entries := DelegatorEntries(pkAndBid.publicKey, delegators);
      for j := 0 to |delegators|
        invariant bids == first + entries[..j]
      {
        var d := delegators[j];
        bids := bids + [BidKindWrapper(pkAndBid.publicKey, DelegatorKind(
                  Delegator(d.bondingPurse, d.stakedAmount, d.kind, d.validatorPublicKey, d.vesting)))];
        assert entries[..j + 1] == entries[..j] + [entries[j]];
      }
      assert entries[..|delegators|] == entries;
      assert bids == before + EntriesOf(pkAndBid);
      assert v1.bids[..i + 1][..i] == v1.bids[..i];
    }
    assert v1.bids[..|v1.bids|] == v1.bids;
    state := AuctionState(bids, v1.blockHeight, v1.eraValidators, v1.stateRootHash);
  }

  /** Every validator's entry is filled up alike: no reserved slots, delegations from 500 to 10^9 CSPR in motes. */
  lemma {:induction false} WhatIsFilledIn(bids: seq<PublicKeyAndBid>, i: nat)
    requires i < |Flattened(bids)| && Flattened(bids)[i].bid.ValidatorKind?
    ensures var v := Flattened(bids)[i].bid.validator;
            && v.reservedSlots == 0
            && v.minimumDelegation == 500 * 1_000_000_000
            && v.maximumDelegation == 1_000_000_000 * 1_000_000_000
  {
    var n := |bids| - 1;
    if i < |Flattened(bids[..n])| {
      WhatIsFilledIn(bids[..n], i);
    }
  }

  // ------------------------------------------------------------ conservation

  function DelegatorsStake(ds: seq<Delegator>): (n: nat) {
    if ds == [] then 0 else DelegatorsStake(ds[..|ds| - 1]) + ds[|ds| - 1].stakedAmount
  }

  function StakeV1(bids: seq<PublicKeyAndBid>): (n: nat) {
    if bids == [] then 0
    else
      var b := bids[|bids| - 1].bid;
      StakeV1(bids[..|bids| - 1]) + b.stakedAmount + DelegatorsStake(b.delegators)
  }

  function CountV1(bids: seq<PublicKeyAndBid>): (n: nat) {
    if bids == [] then 0 else CountV1(bids[..|bids| - 1]) + 1 + |bids[|bids| - 1].bid.delegators|
  }

  function StakeOf(w: BidKindWrapper): (n: nat) {
    if w.bid.ValidatorKind? then w.bid.validator.stakedAmount else w.bid.delegator.stakedAmount
  }

  function Stake(ws: seq<BidKindWrapper>): (n: nat) {
    if ws == [] then 0 else Stake(ws[..|ws| - 1]) + StakeOf(ws[|ws| - 1])
  }

  lemma {:induction false} StakeConcat(a: seq<BidKindWrapper>, b: seq<BidKindWrapper>)
    ensures Stake(a + b) == Stake(a) + Stake(b)
  {
    if b == [] {
      assert a + b == a;
    } else {
      assert (a + b)[..|a + b| - 1] == a + b[..|b| - 1];
      StakeConcat(a, b[..|b| - 1]);
    }
  }

  lemma {:induction false} StakeOfDelegators(key: PublicKey, ds: seq<Delegator>)
    ensures Stake(DelegatorEntries(key, ds)) == DelegatorsStake(ds)
  {
    if ds != [] {
      var n := |ds| - 1;
      StakeOfDelegators(key, ds[..n]);
      assert DelegatorEntries(key, ds)[..n] == DelegatorEntries(key, ds[..n]);
    }
  }

  /** One entry per validator and per delegator, and the same total stake. */
  lemma {:induction false} FlatteningConserves(bids: seq<PublicKeyAndBid>)
    ensures |Flattened(bids)| == CountV1(bids)
    ensures Stake(Flattened(bids)) == StakeV1(bids)
  {
    if bids != [] {
      var n := |bids| - 1;
      FlatteningConserves(bids[..n]);
      StakeConcat(Flattened(bids[..n]), EntriesOf(bids[n]));
      StakeConcat([ValidatorEntry(bids[n])], DelegatorEntries(bids[n].publicKey, bids[n].bid.delegators));
      StakeOfDelegators(bids[n].publicKey, bids[n].bid.delegators);
      assert [ValidatorEntry(bids[n])][..0] == [];
    }
  }

  // --------------------------------------------------------- the way back

  /** A validator's entry opens a V1 bid. */
  function Opened(w: BidKindWrapper): (p: PublicKeyAndBid)
    requires w.bid.ValidatorKind?
  {
    var v := w.bid.validator;
    PublicKeyAndBid(w.publicKey, Bid(v.bondingPurse, v.delegationRate, v.inactive, v.stakedAmount,
                                     v.validatorPublicKey, [], v.vesting))
  }

  function WithDelegator(p: PublicKeyAndBid, d: Delegator): (q: PublicKeyAndBid) {
    p.(bid := p.bid.(delegators := p.bid.delegators + [d]))
  }

  /** Reads the flat list back: validators open a bid, delegators join the one opened last. */
  function Regrouped(ws: seq<BidKindWrapper>): (bids: seq<PublicKeyAndBid>) {
    if ws == [] then []
    else
      var init, last := Regrouped(ws[..|ws| - 1]), ws[|ws| - 1];
      if last.bid.ValidatorKind? then init + [Opened(last)]
      else if init == [] then []
      else init[..|init| - 1] + [WithDelegator(init[|init| - 1], last.bid.delegator)]
  }

  lemma {:induction false} RegroupDelegators(ws: seq<BidKindWrapper>, p: PublicKeyAndBid, k: nat)
    requires k <= |p.bid.delegators|
    ensures Regrouped(ws + [ValidatorEntry(p)] + DelegatorEntries(p.publicKey, p.bid.delegators[..k]))
            == Regrouped(ws) + [p.(bid := p.bid.(delegators := p.bid.delegators[..k]))]
  {
    var head := ws + [ValidatorEntry(p)];
    var all := head + DelegatorEntries(p.publicKey, p.bid.delegators[..k]);
    if k == 0 {
      assert all == head && head[..|head| - 1] == ws;
    } else {
      RegroupDelegators(ws, p, k - 1);
      assert all[..|all| - 1] == head + DelegatorEntries(p.publicKey, p.bid.delegators[..k - 1]);
      assert p.bid.delegators[..k] == p.bid.delegators[..k - 1] + [p.bid.delegators[k - 1]];
    }
  }

  lemma FlattenedStep(bids: seq<PublicKeyAndBid>, p: PublicKeyAndBid)
    ensures Flattened(bids + [p]) ==
            Flattened(bids) + [ValidatorEntry(p)] + DelegatorEntries(p.publicKey, p.bid.delegators)
  {
    hide ValidatorEntry, DelegatorEntries;
    assert (bids + [p])[..|bids|] == bids;
  }

  /** Nothing of the V1 bids is lost or reordered: they can be read back from the flat list. */
  lemma {:induction false} FlatteningLosesNothing(bids: seq<PublicKeyAndBid>)
    ensures Regrouped(Flattened(bids)) == bids
  {
    if bids != [] {
      hide *;
      var n := |bids| - 1;
      var p := bids[n];
      FlatteningLosesNothing(bids[..n]);
      assert bids == bids[..n] + [p];
      FlattenedStep(bids[..n], p);
      RegroupDelegators(Flattened(bids[..n]), p, |p.bid.delegators|);
      assert p.bid.delegators[..|p.bid.delegators|] == p.bid.delegators;
    }
  }
}
