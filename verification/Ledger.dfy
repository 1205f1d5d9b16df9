/** Token balances and supplies, and the instructions that move them. */
module Ledger {
  import opened Machine
  import FixedPoint

  type Id = nat

  /** A token account, addressed by its index; several parameters may name the same one. */
  datatype Account = Account(mint: Id, amount: u64)

  datatype Mint = Mint(supply: u64, authority: Option<Id>, transferFee: bool)

  datatype State = State(accounts: seq<Account>, mints: seq<Mint>)

  /** The program's mint authority address. */
  const MINT_AUTHORITY: Id := 0

  /** `program_controls_mint` */
  predicate Controls(s: State, mint: Id)
    requires mint < |s.mints|
  {
    s.mints[mint].authority == Some(MINT_AUTHORITY)
  }

  predicate Holds(s: State, account: Id, mint: Id) {
    account < |s.accounts| && mint < |s.mints| && s.accounts[account].mint == mint
  }

  predicate FeeFree(s: State, mint: Id) {
    mint < |s.mints| ==> !s.mints[mint].transferFee
  }

  function WithAmount(s: State, account: Id, amount: u64): State
    requires account < |s.accounts|
  {
    s.(accounts := s.accounts[account := s.accounts[account].(amount := amount)])
  }

  function WithSupply(s: State, mint: Id, supply: u64): State
    requires mint < |s.mints|
  {
    s.(mints := s.mints[mint := s.mints[mint].(supply := supply)])
  }

  // ---------------------------------------------------------------- the token program

  /** A checked transfer of a mint without a transfer fee. A transfer to itself only checks the
      balance. */
  function Transfer(s: State, mint: Id, from: Id, to: Id, amount: u64): Result<State> {
    if !Holds(s, from, mint) || !Holds(s, to, mint) then
      Err(MintMismatch)
    else if s.accounts[from].amount < amount then
      Err(InsufficientFunds)
    else if from == to then
      Ok(s)
    else if s.accounts[to].amount + amount > U64_MAX then
      Err(Overflow)
    else
      Ok(WithAmount(WithAmount(s, from, s.accounts[from].amount - amount), to, s.accounts[to].amount + amount))
  }

  function Burn(s: State, mint: Id, from: Id, amount: u64): Result<State> {
    if !Holds(s, from, mint) then
      Err(MintMismatch)
    else if s.accounts[from].amount < amount then
      Err(InsufficientFunds)
    else if s.mints[mint].supply < amount then
      Err(Overflow)
    else
      Ok(WithSupply(WithAmount(s, from, s.accounts[from].amount - amount), mint, s.mints[mint].supply - amount))
  }

  /** `mint_tokens`: the cap check against the supply as the instruction first read it, then
      the token program's mint. A cap of 0 is no cap. */
  function MintTokens(s: State, mint: Id, to: Id, amount: u64, maxSupply: u64, readSupply: u64): Result<State> {
    if maxSupply > 0 && readSupply + amount > U64_MAX then
      Err(Overflow)
    else if maxSupply > 0 && readSupply + amount > maxSupply then
      Err(MaxSupplyExceeded)
    else if !Holds(s, to, mint) then
      Err(MintMismatch)
    else if !Controls(s, mint) then
      Err(NoMintAuthority)
    else if s.mints[mint].supply + amount > U64_MAX || s.accounts[to].amount + amount > U64_MAX then
      Err(Overflow)
    else
      Ok(WithSupply(WithAmount(s, to, s.accounts[to].amount + amount), mint, s.mints[mint].supply + amount))
  }

  // ---------------------------------------------------------------- settlement of a trade

  /** The accounts and amounts of `execute_token_operations`. */
  datatype TokenOps = TokenOps(
    inMint: Id, net: u64, fee: u64, payer: Id, boss: Id, burnVault: Id,
    outMint: Id, out: u64, outVault: Id, receiver: Id, maxSupply: u64)

  function PayIn(s: State, p: TokenOps): Result<State> {
    if p.inMint >= |s.mints| then
      Err(MintMismatch)
    else if Controls(s, p.inMint) then
      var s1 :- Transfer(s, p.inMint, p.payer, p.burnVault, p.net);
      var s2 :- Burn(s1, p.inMint, p.burnVault, p.net);
      if p.fee > 0 then Transfer(s2, p.inMint, p.payer, p.boss, p.fee) else Ok(s2)
    else if p.net + p.fee > U64_MAX then
      Err(Overflow)
    else
      Transfer(s, p.inMint, p.payer, p.boss, p.net + p.fee)
  }

  function PayOut(s: State, p: TokenOps, readSupply: u64): Result<State> {
    if p.outMint >= |s.mints| then
      Err(MintMismatch)
    else if Controls(s, p.outMint) then
      MintTokens(s, p.outMint, p.receiver, p.out, p.maxSupply, readSupply)
    else
      Transfer(s, p.outMint, p.outVault, p.receiver, p.out)
  }

  /** `execute_token_operations` */
  function Execute(s: State, p: TokenOps): Result<State> {
    if p.inMint >= |s.mints| || p.outMint >= |s.mints| then
      Err(MintMismatch)
    else if s.mints[p.inMint].transferFee || s.mints[p.outMint].transferFee then
      Err(TransferFeeNotSupported)
    else
      var s1 :- PayIn(s, p);
      PayOut(s1, p, s.mints[p.outMint].supply)
  }

  /** The token_in half of a redemption: the tokens already lie in the vault. */
  function RedeemIn(s: State, p: TokenOps): Result<State> {
    if p.inMint >= |s.mints| then
      Err(MintMismatch)
    else if Controls(s, p.inMint) then
      var s1 :- Burn(s, p.inMint, p.burnVault, p.net);
      if p.fee > 0 then Transfer(s1, p.inMint, p.burnVault, p.boss, p.fee) else Ok(s1)
    else if p.net + p.fee > U64_MAX then
      Err(Overflow)
    else
      Transfer(s, p.inMint, p.burnVault, p.boss, p.net + p.fee)
  }

  /** `execute_redemption_operations` as `fulfill_redemption_request` calls it: with no cap. */
  function ExecuteRedemption(s: State, p: TokenOps): Result<State> {
    if p.outMint >= |s.mints| then
      Err(MintMismatch)
    else
      var s1 :- RedeemIn(s, p);
      PayOut(s1, p.(maxSupply := 0), s.mints[p.outMint].supply)
  }

  /** `mint_to`, which first checks that the program holds the authority. */
  function MintTo(s: State, mint: Id, boss: Id, amount: u64, maxSupply: u64): Result<State> {
    if mint >= |s.mints| || !Controls(s, mint) then
      Err(NoMintAuthority)
    else
      MintTokens(s, mint, boss, amount, maxSupply, s.mints[mint].supply)
  }

  // ---------------------------------------------------------------- conservation

  function Total(accounts: seq<Account>, mint: Id): nat {
    if accounts == [] then
      0
    else
      var a := accounts[|accounts| - 1];
      Total(accounts[..|accounts| - 1], mint) + if a.mint == mint then a.amount else 0
  }

  ghost predicate Conserved(s: State) {
    forall m: Id :: m < |s.mints| ==> s.mints[m].supply == Total(s.accounts, m)
  }

  lemma {:induction false} TotalUpdate(accounts: seq<Account>, i: nat, amount: u64, mint: Id)
    requires i < |accounts|
    ensures Total(accounts[i := accounts[i].(amount := amount)], mint)
         == Total(accounts, mint) + if accounts[i].mint == mint then amount - accounts[i].amount else 0
  {
    var init := accounts[..|accounts| - 1];
    var updated := accounts[i := accounts[i].(amount := amount)];
    if i == |accounts| - 1 {
      assert updated[..|accounts| - 1] == init;
    } else {
      assert updated[..|accounts| - 1] == init[i := init[i].(amount := amount)];
      TotalUpdate(init, i, amount, mint);
    }
  }

  /** One account never holds more than the total, nor two more than that together. */
  lemma {:induction false} PartOfTotal(accounts: seq<Account>, i: nat, j: nat, mint: Id)
    requires i < |accounts| && j < |accounts| && accounts[i].mint == mint && accounts[j].mint == mint
    ensures accounts[i].amount <= Total(accounts, mint)
    ensures i != j ==> accounts[i].amount + accounts[j].amount <= Total(accounts, mint)
  {
    var n := |accounts| - 1;
    var init := accounts[..n];
    if i < n && j < n {
      PartOfTotal(init, i, j, mint);
    } else if i < n {
      PartOfTotal(init, i, i, mint);
    } else if j < n {
      PartOfTotal(init, j, j, mint);
    }
  }

  /** What an operation may do: no account or mint comes or goes or changes kind. */
  ghost predicate SameShape(s: State, t: State) {
    && |t.accounts| == |s.accounts| && |t.mints| == |s.mints|
    && (forall i :: 0 <= i < |s.accounts| ==> t.accounts[i].mint == s.accounts[i].mint)
    && (forall m :: 0 <= m < |s.mints| ==>
          t.mints[m].authority == s.mints[m].authority && t.mints[m].transferFee == s.mints[m].transferFee)
  }

  function At(here: bool, x: int): int {
    if here then x else 0
  }

  /** `amount` went from one account to another, which may be the same. */
  ghost predicate Moved(s: State, t: State, from: Id, to: Id, amount: int) {
    && SameShape(s, t) && t.mints == s.mints
    && forall i :: 0 <= i < |s.accounts| ==>
         t.accounts[i].amount == s.accounts[i].amount - At(i == from, amount) + At(i == to, amount)
  }

  /** `amount` of the mint left `from` and went out of existence. */
  ghost predicate Burned(s: State, t: State, mint: Id, from: Id, amount: int) {
    && SameShape(s, t)
    && (forall i :: 0 <= i < |s.accounts| ==> t.accounts[i].amount == s.accounts[i].amount - At(i == from, amount))
    && (forall m :: 0 <= m < |s.mints| ==> t.mints[m].supply == s.mints[m].supply - At(m == mint, amount))
  }

  lemma TransferEffect(s: State, mint: Id, from: Id, to: Id, amount: u64)
    requires Transfer(s, mint, from, to, amount).Ok?
    ensures Moved(s, Transfer(s, mint, from, to, amount).value, from, to, amount)
    ensures Conserved(s) ==> Conserved(Transfer(s, mint, from, to, amount).value)
  {
    if from != to {
      var a, b := s.accounts[from].amount - amount, s.accounts[to].amount + amount;
      var mid := WithAmount(s, from, a);
      forall m: Id | m < |s.mints|
        ensures Total(Transfer(s, mint, from, to, amount).value.accounts, m) == Total(s.accounts, m)
      {
        TotalUpdate(s.accounts, from, a, m);
        TotalUpdate(mid.accounts, to, b, m);
      }
    }
  }

  lemma BurnEffect(s: State, mint: Id, from: Id, amount: u64)
    requires Burn(s, mint, from, amount).Ok?
    ensures Burned(s, Burn(s, mint, from, amount).value, mint, from, amount)
    ensures Conserved(s) ==> Conserved(Burn(s, mint, from, amount).value)
  {
    forall m: Id | m < |s.mints|
      ensures Total(Burn(s, mint, from, amount).value.accounts, m) == Total(s.accounts, m) - At(m == mint, amount)
    {
      TotalUpdate(s.accounts, from, s.accounts[from].amount - amount, m);
    }
  }

  lemma MintEffect(s: State, mint: Id, to: Id, amount: u64, cap: u64, readSupply: u64)
    requires MintTokens(s, mint, to, amount, cap, readSupply).Ok?
    ensures var t := MintTokens(s, mint, to, amount, cap, readSupply).value;
            && SameShape(s, t) && Holds(s, to, mint)
            && (forall i :: 0 <= i < |s.accounts| ==>
                  t.accounts[i].amount == s.accounts[i].amount + At(i == to, amount))
            && (forall m :: 0 <= m < |s.mints| ==> t.mints[m].supply == s.mints[m].supply + At(m == mint, amount))
            && (cap > 0 ==> readSupply + amount <= cap)
    ensures Conserved(s) ==> Conserved(MintTokens(s, mint, to, amount, cap, readSupply).value)
  {
    forall m: Id | m < |s.mints|
      ensures Total(MintTokens(s, mint, to, amount, cap, readSupply).value.accounts, m)
           == Total(s.accounts, m) + At(m == mint, amount)
    {
      TotalUpdate(s.accounts, to, s.accounts[to].amount + amount, m);
    }
  }

  // ---------------------------------------------------------------- one trade

  /** What the token_in half changes on account i: `debited` pays net + fee, the boss gets the
      fee, and the net too when it is not burned. */
  function InChange(p: TokenOps, debited: Id, burned: bool, i: Id): int {
    At(i == p.boss, p.fee + if burned then 0 else p.net) - At(i == debited, p.net + p.fee)
  }

  /** What the token_out half changes on account i: the receiver gets the payout, out of the
      vault unless it is minted. */
  function OutChange(p: TokenOps, minted: bool, i: Id): int {
    At(i == p.receiver, p.out) - At(i == p.outVault && !minted, p.out)
  }

  ghost predicate InEffect(s: State, p: TokenOps, debited: Id, t: State) {
    && p.inMint < |s.mints|
    && SameShape(s, t)
    && (forall i :: 0 <= i < |s.accounts| ==>
          t.accounts[i].amount == s.accounts[i].amount + InChange(p, debited, Controls(s, p.inMint), i))
    && (forall m :: 0 <= m < |s.mints| ==>
          t.mints[m].supply == s.mints[m].supply - At(m == p.inMint && Controls(s, p.inMint), p.net))
  }

  ghost predicate OutEffect(s: State, p: TokenOps, t: State) {
    && p.outMint < |s.mints|
    && SameShape(s, t)
    && (forall i :: 0 <= i < |s.accounts| ==>
          t.accounts[i].amount == s.accounts[i].amount + OutChange(p, Controls(s, p.outMint), i))
    && (forall m :: 0 <= m < |s.mints| ==>
          t.mints[m].supply == s.mints[m].supply + At(m == p.outMint && Controls(s, p.outMint), p.out))
  }

  /** The whole effect of a settlement, on every account and every mint. */
  ghost predicate SettlementEffect(s: State, p: TokenOps, debited: Id, t: State) {
    && p.inMint < |s.mints| && p.outMint < |s.mints|
    && SameShape(s, t)
    && (forall i :: 0 <= i < |s.accounts| ==>
          t.accounts[i].amount
          == s.accounts[i].amount + InChange(p, debited, Controls(s, p.inMint), i)
                                  + OutChange(p, Controls(s, p.outMint), i))
    && (forall m :: 0 <= m < |s.mints| ==>
          t.mints[m].supply
          == s.mints[m].supply - At(m == p.inMint && Controls(s, p.inMint), p.net)
                               + At(m == p.outMint && Controls(s, p.outMint), p.out))
  }

  /** Burning the net and moving the fee, both out of `debited`. */
  lemma BurnThenFee(s: State, s1: State, t: State, p: TokenOps, debited: Id)
    requires p.inMint < |s.mints| && Controls(s, p.inMint)
    requires Burned(s, s1, p.inMint, debited, p.net) && Moved(s1, t, debited, p.boss, p.fee)
    ensures InEffect(s, p, debited, t)
  {
    forall i | 0 <= i < |s.accounts|
      ensures t.accounts[i].amount == s.accounts[i].amount + InChange(p, debited, true, i)
    {
      assert s1.accounts[i].amount == s.accounts[i].amount - At(i == debited, p.net);
    }
  }

  /** Moving the net into the vault and burning it there takes it from the payer alone. */
  lemma TransferThenBurn(s: State, mint: Id, payer: Id, vault: Id, net: u64) returns (t: State)
    requires Transfer(s, mint, payer, vault, net).Ok?
    requires Burn(Transfer(s, mint, payer, vault, net).value, mint, vault, net).Ok?
    ensures Burn(Transfer(s, mint, payer, vault, net).value, mint, vault, net) == Ok(t)
    ensures Burned(s, t, mint, payer, net) && (Conserved(s) ==> Conserved(t))
  {
    var s1 := Transfer(s, mint, payer, vault, net).value;
    TransferEffect(s, mint, payer, vault, net);
    BurnEffect(s1, mint, vault, net);
    t := Burn(s1, mint, vault, net).value;
  }

  lemma FeeEffect(s: State, mint: Id, from: Id, boss: Id, fee: u64, t: State)
    requires (if fee > 0 then Transfer(s, mint, from, boss, fee) else Ok(s)) == Ok(t)
    ensures Moved(s, t, from, boss, fee) && (Conserved(s) ==> Conserved(t))
  {
    if fee > 0 {
      TransferEffect(s, mint, from, boss, fee);
    }
  }

  /** Where the program does not control the mint, net and fee move to the boss together. */
  lemma NetWithFee(s: State, p: TokenOps, debited: Id, t: State)
    requires p.inMint < |s.mints| && !Controls(s, p.inMint) && p.net + p.fee <= U64_MAX
    requires Transfer(s, p.inMint, debited, p.boss, p.net + p.fee) == Ok(t)
    ensures InEffect(s, p, debited, t) && (Conserved(s) ==> Conserved(t))
  {
    TransferEffect(s, p.inMint, debited, p.boss, p.net + p.fee);
  }

  /** The token_in half of a trade, under any aliasing: the burn vault ends where it began. */
  lemma PayInEffect(s: State, p: TokenOps, t: State)
    requires PayIn(s, p) == Ok(t)
    ensures InEffect(s, p, p.payer, t) && (Conserved(s) ==> Conserved(t))
  {
    if Controls(s, p.inMint) {
      var s2 := TransferThenBurn(s, p.inMint, p.payer, p.burnVault, p.net);
      FeeEffect(s2, p.inMint, p.payer, p.boss, p.fee, t);
      BurnThenFee(s, s2, t, p, p.payer);
    } else {
      NetWithFee(s, p, p.payer, t);
    }
  }

  lemma RedeemInEffect(s: State, p: TokenOps, t: State)
    requires RedeemIn(s, p) == Ok(t)
    ensures InEffect(s, p, p.burnVault, t) && (Conserved(s) ==> Conserved(t))
  {
    if Controls(s, p.inMint) {
      var s1 := Burn(s, p.inMint, p.burnVault, p.net).value;
      BurnEffect(s, p.inMint, p.burnVault, p.net);
      FeeEffect(s1, p.inMint, p.burnVault, p.boss, p.fee, t);
      BurnThenFee(s, s1, t, p, p.burnVault);
    } else {
      NetWithFee(s, p, p.burnVault, t);
    }
  }

  lemma PayOutEffect(s: State, p: TokenOps, readSupply: u64)
    requires PayOut(s, p, readSupply).Ok?
    ensures OutEffect(s, p, PayOut(s, p, readSupply).value)
    ensures Controls(s, p.outMint) && p.maxSupply > 0 ==> readSupply + p.out <= p.maxSupply
    ensures Conserved(s) ==> Conserved(PayOut(s, p, readSupply).value)
  {
    if Controls(s, p.outMint) {
      MintEffect(s, p.outMint, p.receiver, p.out, p.maxSupply, readSupply);
    } else {
      TransferEffect(s, p.outMint, p.outVault, p.receiver, p.out);
    }
  }

  lemma BothHalves(s: State, s1: State, t: State, p: TokenOps, debited: Id)
    requires InEffect(s, p, debited, s1) && OutEffect(s1, p, t)
    ensures SettlementEffect(s, p, debited, t)
  {
    assert Controls(s1, p.outMint) == Controls(s, p.outMint);
    forall i | 0 <= i < |s.accounts|
      ensures t.accounts[i].amount
           == s.accounts[i].amount + InChange(p, debited, Controls(s, p.inMint), i)
                                   + OutChange(p, Controls(s, p.outMint), i)
    {
      assert s1.accounts[i].amount == s.accounts[i].amount + InChange(p, debited, Controls(s, p.inMint), i);
    }
  }

  /** The exact effect of `execute_token_operations` in all four routings and under any
      aliasing of the accounts and mints; it conserves, and it respects a cap. */
  lemma ExecuteEffect(s: State, p: TokenOps)
    requires Execute(s, p).Ok?
    ensures SettlementEffect(s, p, p.payer, Execute(s, p).value)
    ensures Conserved(s) ==> Conserved(Execute(s, p).value)
    ensures Controls(s, p.outMint) && p.maxSupply > 0 ==>
              Execute(s, p).value.mints[p.outMint].supply <= p.maxSupply
  {
    var s1 := PayIn(s, p).value;
    PayInEffect(s, p, s1);
    PayOutEffect(s1, p, s.mints[p.outMint].supply);
    BothHalves(s, s1, Execute(s, p).value, p, p.payer);
  }

  /** A redemption does not check for transfer fees, so its effect is claimed for mints without. */
  lemma ExecuteRedemptionEffect(s: State, p: TokenOps)
    requires FeeFree(s, p.inMint) && FeeFree(s, p.outMint) && ExecuteRedemption(s, p).Ok?
    ensures SettlementEffect(s, p, p.burnVault, ExecuteRedemption(s, p).value)
    ensures Conserved(s) ==> Conserved(ExecuteRedemption(s, p).value)
  {
    RedemptionMoves(s, p);
  }

  lemma RedemptionMoves(s: State, p: TokenOps)
    requires ExecuteRedemption(s, p).Ok?
    ensures SettlementEffect(s, p, p.burnVault, ExecuteRedemption(s, p).value)
    ensures Conserved(s) ==> Conserved(ExecuteRedemption(s, p).value)
  {
    var s1 := RedeemIn(s, p).value;
    RedeemInEffect(s, p, s1);
    PayOutEffect(s1, p.(maxSupply := 0), s.mints[p.outMint].supply);
    BothHalves(s, s1, ExecuteRedemption(s, p).value, p, p.burnVault);
  }

  // ---------------------------------------------------------------- when a trade succeeds

  /** Where supplies match balances, a transfer fails only for want of funds. */
  lemma TransferFails(s: State, mint: Id, from: Id, to: Id, amount: u64)
    requires Conserved(s) && Holds(s, from, mint) && Holds(s, to, mint)
    ensures Transfer(s, mint, from, to, amount).Ok? <==> amount <= s.accounts[from].amount
  {
    PartOfTotal(s.accounts, from, to, mint);
  }

  lemma PayInSucceedsIff(s: State, p: TokenOps)
    requires Conserved(s)
    requires Holds(s, p.payer, p.inMint) && Holds(s, p.boss, p.inMint) && Holds(s, p.burnVault, p.inMint)
    ensures PayIn(s, p).Ok? <==> p.net + p.fee <= s.accounts[p.payer].amount
  {
    if Controls(s, p.inMint) {
      TransferFails(s, p.inMint, p.payer, p.burnVault, p.net);
      if p.net <= s.accounts[p.payer].amount {
        var s1 := Transfer(s, p.inMint, p.payer, p.burnVault, p.net).value;
        TransferEffect(s, p.inMint, p.payer, p.burnVault, p.net);
        PartOfTotal(s1.accounts, p.burnVault, p.burnVault, p.inMint);
        var s2 := Burn(s1, p.inMint, p.burnVault, p.net).value;
        BurnEffect(s1, p.inMint, p.burnVault, p.net);
        TransferFails(s2, p.inMint, p.payer, p.boss, p.fee);
      }
    } else if p.net + p.fee <= U64_MAX {
      TransferFails(s, p.inMint, p.payer, p.boss, p.net + p.fee);
    }
  }

  /** The payer covers net and fee and the payout is covered: by the vault as the payment leaves
      it, or by room under the cap and, after the burn, under the word size. */
  ghost predicate TradeCovered(s: State, p: TokenOps)
    requires Holds(s, p.payer, p.inMint) && Holds(s, p.outVault, p.outMint)
  {
    && !s.mints[p.inMint].transferFee && !s.mints[p.outMint].transferFee
    && p.net + p.fee <= s.accounts[p.payer].amount
    && if s.mints[p.outMint].authority == Some(MINT_AUTHORITY) then
         && (p.maxSupply > 0 ==> s.mints[p.outMint].supply + p.out <= p.maxSupply)
         && s.mints[p.outMint].supply - At(p.inMint == p.outMint, p.net) + p.out <= U64_MAX
       else
         p.out <= s.accounts[p.outVault].amount + At(p.outVault == p.boss, p.net + p.fee)
                                                - At(p.outVault == p.payer, p.net + p.fee)
  }

  /** A trade goes through exactly when it is covered. The two mints, and any accounts, may
      coincide. */
  lemma ExecuteSucceedsIff(s: State, p: TokenOps)
    requires Conserved(s)
    requires Holds(s, p.payer, p.inMint) && Holds(s, p.boss, p.inMint) && Holds(s, p.burnVault, p.inMint)
    requires Holds(s, p.outVault, p.outMint) && Holds(s, p.receiver, p.outMint)
    ensures Execute(s, p).Ok? <==> TradeCovered(s, p)
  {
    PayInSucceedsIff(s, p);
    if PayIn(s, p).Ok? {
      var s1 := PayIn(s, p).value;
      PayInEffect(s, p, s1);
      PayOutSucceedsIff(s1, p, s.mints[p.outMint].supply);
    }
  }

  /** The two refusals of the program's own. A trade is refused for the cap exactly when the
      payer covers it, the program mints the payout, and the supply before the trade has no
      room for it, whatever the trade burns. */
  lemma ExecuteRefusals(s: State, p: TokenOps)
    requires Conserved(s)
    requires Holds(s, p.payer, p.inMint) && Holds(s, p.boss, p.inMint) && Holds(s, p.burnVault, p.inMint)
    requires Holds(s, p.outVault, p.outMint) && Holds(s, p.receiver, p.outMint)
    ensures Execute(s, p) == Err(TransferFeeNotSupported) <==>
              s.mints[p.inMint].transferFee || s.mints[p.outMint].transferFee
    ensures Execute(s, p) == Err(MaxSupplyExceeded) <==>
              && !s.mints[p.inMint].transferFee && !s.mints[p.outMint].transferFee
              && p.net + p.fee <= s.accounts[p.payer].amount
              && s.mints[p.outMint].authority == Some(MINT_AUTHORITY)
              && 0 < p.maxSupply < s.mints[p.outMint].supply + p.out <= U64_MAX
  {
    PayInSucceedsIff(s, p);
    if PayIn(s, p).Ok? {
      PayInEffect(s, p, PayIn(s, p).value);
    }
  }

  lemma PayOutSucceedsIff(s: State, p: TokenOps, readSupply: u64)
    requires Conserved(s) && Holds(s, p.outVault, p.outMint) && Holds(s, p.receiver, p.outMint)
    ensures PayOut(s, p, readSupply).Ok? <==>
              if Controls(s, p.outMint) then
                && (p.maxSupply > 0 ==> readSupply + p.out <= p.maxSupply)
                && s.mints[p.outMint].supply + p.out <= U64_MAX
              else
                p.out <= s.accounts[p.outVault].amount
  {
    PartOfTotal(s.accounts, p.receiver, p.receiver, p.outMint);
    TransferFails(s, p.outMint, p.outVault, p.receiver, p.out);
  }

  /** After a payout the receiver holds at least what it was paid. */
  lemma ReceiverHoldsPayout(s: State, p: TokenOps, t: State)
    requires Execute(s, p) == Ok(t)
    ensures Holds(t, p.receiver, p.outMint) && p.out <= t.accounts[p.receiver].amount
  {
    var s1 := PayIn(s, p).value;
    PayInEffect(s, p, s1);
    PayOutEffect(s1, p, s.mints[p.outMint].supply);
  }

  /** The vault holds net and fee and the payout is covered: by the payout vault as the payment
      leaves it, or, after the burn, by the word size where it is minted. */
  ghost predicate RedemptionCovered(s: State, p: TokenOps)
    requires Holds(s, p.burnVault, p.inMint) && Holds(s, p.outVault, p.outMint)
  {
    && p.net + p.fee <= s.accounts[p.burnVault].amount
    && if s.mints[p.outMint].authority == Some(MINT_AUTHORITY) then
         s.mints[p.outMint].supply - At(p.inMint == p.outMint, p.net) + p.out <= U64_MAX
       else
         p.out <= s.accounts[p.outVault].amount + At(p.outVault == p.boss, p.net + p.fee)
                                                - At(p.outVault == p.burnVault, p.net + p.fee)
  }

  /** A redemption of mints without transfer fee goes through exactly when it is covered. The
      mints and accounts may coincide. */
  lemma RedemptionSucceedsIff(s: State, p: TokenOps)
    requires Conserved(s) && FeeFree(s, p.inMint) && FeeFree(s, p.outMint)
    requires Holds(s, p.boss, p.inMint) && Holds(s, p.burnVault, p.inMint)
    requires Holds(s, p.outVault, p.outMint) && Holds(s, p.receiver, p.outMint)
    ensures ExecuteRedemption(s, p).Ok? <==> RedemptionCovered(s, p)
  {
    RedeemInSucceedsIff(s, p);
    if RedeemIn(s, p).Ok? {
      var s1 := RedeemIn(s, p).value;
      RedeemInEffect(s, p, s1);
      PayOutSucceedsIff(s1, p.(maxSupply := 0), s.mints[p.outMint].supply);
    }
  }

  lemma RedeemInSucceedsIff(s: State, p: TokenOps)
    requires Conserved(s) && Holds(s, p.boss, p.inMint) && Holds(s, p.burnVault, p.inMint)
    ensures RedeemIn(s, p).Ok? <==> p.net + p.fee <= s.accounts[p.burnVault].amount
  {
    if Controls(s, p.inMint) {
      PartOfTotal(s.accounts, p.burnVault, p.burnVault, p.inMint);
      if p.net <= s.accounts[p.burnVault].amount {
        var s1 := Burn(s, p.inMint, p.burnVault, p.net).value;
        BurnEffect(s, p.inMint, p.burnVault, p.net);
        TransferFails(s1, p.inMint, p.burnVault, p.boss, p.fee);
      }
    } else if p.net + p.fee <= U64_MAX {
      TransferFails(s, p.inMint, p.burnVault, p.boss, p.net + p.fee);
    }
  }

  /** `mint_to` goes through exactly when the program holds the authority and the new supply
      fits the cap, if there is one, and the word. */
  lemma MintToSucceedsIff(s: State, mint: Id, boss: Id, amount: u64, maxSupply: u64)
    requires Conserved(s) && Holds(s, boss, mint)
    ensures MintTo(s, mint, boss, amount, maxSupply).Ok? <==>
              && s.mints[mint].authority == Some(MINT_AUTHORITY)
              && s.mints[mint].supply + amount <= if maxSupply > 0 then maxSupply else U64_MAX
  {
    PartOfTotal(s.accounts, boss, boss, mint);
  }

  /** And then the boss's balance and the supply rise by the amount, and nothing else changes. */
  lemma MintToEffect(s: State, mint: Id, boss: Id, amount: u64, maxSupply: u64)
    requires MintTo(s, mint, boss, amount, maxSupply).Ok?
    ensures var t := MintTo(s, mint, boss, amount, maxSupply).value;
            && SameShape(s, t) && Holds(s, boss, mint)
            && (forall i :: 0 <= i < |s.accounts| ==>
                  t.accounts[i].amount == s.accounts[i].amount + At(i == boss, amount))
            && (forall m :: 0 <= m < |s.mints| ==> t.mints[m].supply == s.mints[m].supply + At(m == mint, amount))
            && (maxSupply > 0 ==> t.mints[mint].supply <= maxSupply)
            && (Conserved(s) ==> Conserved(t))
  {
    MintEffect(s, mint, boss, amount, maxSupply, s.mints[mint].supply);
  }

  /** Routing independence, for pairwise different accounts: on either route the payer loses
      exactly net + fee, the burn vault keeps its balance, the receiver gains exactly the
      payout, and no account outside the trade moves. */
  lemma RoutingIndependent(s: State, p: TokenOps, i: Id, t: State)
    requires Execute(s, p) == Ok(t) && i < |s.accounts|
    requires p.payer != p.boss && p.payer != p.outVault && p.payer != p.receiver
    requires p.burnVault != p.payer && p.burnVault != p.boss && p.burnVault != p.outVault && p.burnVault != p.receiver
    requires p.receiver != p.boss && p.receiver != p.outVault
    ensures |t.accounts| == |s.accounts|
    ensures var before, after := s.accounts[i].amount, t.accounts[i].amount;
            && (i == p.payer ==> after == before - (p.net + p.fee))
            && (i == p.receiver ==> after == before + p.out)
            && (i == p.burnVault ==> after == before)
            && (i != p.payer && i != p.boss && i != p.outVault && i != p.receiver ==> after == before)
  {
    ExecuteEffect(s, p);
  }

  // ---------------------------------------------------------------- runs

  datatype LedgerStep =
    | Trade(ops: TokenOps)
    | Redemption(ops: TokenOps)
    | MintToBoss(mint: Id, boss: Id, amount: u64, maxSupply: u64)
    | Move(mint: Id, from: Id, to: Id, amount: u64)
    | OpenAccount(mint: Id)
    | SetAuthority(mint: Id, authority: Option<Id>)

  /** `Move` is any plain transfer: vault deposits and withdrawals, locking and cancelling a
      redemption request, or a wallet's own. */
  function Attempt(s: State, step: LedgerStep): Result<State> {
    match step
    case Trade(p) => Execute(s, p)
    case Redemption(p) => ExecuteRedemption(s, p)
    case MintToBoss(mint, boss, amount, cap) => MintTo(s, mint, boss, amount, cap)
    case Move(mint, from, to, amount) => Transfer(s, mint, from, to, amount)
    case OpenAccount(mint) =>
      if mint < |s.mints| then Ok(s.(accounts := s.accounts + [Account(mint, 0)])) else Err(InvalidAccount)
    case SetAuthority(mint, authority) =>
      if mint < |s.mints| then
        Ok(s.(mints := s.mints[mint := s.mints[mint].(authority := authority)]))
      else
        Err(InvalidAccount)
  }

  /** A failing instruction is rolled back. */
  function After(s: State, step: LedgerStep): State {
    match Attempt(s, step)
    case Ok(t) => t
    case Err(_) => s
  }

  function RunLedger(s: State, steps: seq<LedgerStep>): State {
    if steps == [] then s else After(RunLedger(s, steps[..|steps| - 1]), steps[|steps| - 1])
  }

  ghost predicate NoTransferFees(s: State) {
    forall m: Id :: m < |s.mints| ==> !s.mints[m].transferFee
  }

  lemma StepConserves(s: State, step: LedgerStep)
    requires Conserved(s) && NoTransferFees(s)
    ensures Conserved(After(s, step)) && NoTransferFees(After(s, step)) && |After(s, step).mints| == |s.mints|
  {
    if Attempt(s, step).Ok? {
      match step
      case Trade(p) => ExecuteEffect(s, p);
      case Redemption(p) => ExecuteRedemptionEffect(s, p);
      case MintToBoss(mint, boss, amount, cap) => MintEffect(s, mint, boss, amount, cap, s.mints[mint].supply);
      case Move(mint, from, to, amount) => TransferEffect(s, mint, from, to, amount);
      case OpenAccount(mint) =>
        assert (s.accounts + [Account(mint, 0)])[..|s.accounts|] == s.accounts;
      case SetAuthority(mint, authority) =>
    }
  }

  /** Conservation, for mints without transfer fee: after any run, every mint's supply is the
      sum of all its balances. */
  lemma {:induction false} RunConserves(s: State, steps: seq<LedgerStep>)
    requires Conserved(s) && NoTransferFees(s)
    ensures Conserved(RunLedger(s, steps)) && NoTransferFees(RunLedger(s, steps))
    ensures |RunLedger(s, steps).mints| == |s.mints|
  {
    if steps != [] {
      RunConserves(s, steps[..|steps| - 1]);
      StepConserves(RunLedger(s, steps[..|steps| - 1]), steps[|steps| - 1]);
    }
  }

  // ---------------------------------------------------------------- the supply cap

  function Supply(s: State, m: Id): u64 {
    if m < |s.mints| then s.mints[m].supply else 0
  }

  /** Trades and direct mints of m pass `cap`, as the program's state does. Redemptions pass none. */
  ghost predicate CappedAt(step: LedgerStep, m: Id, cap: u64) {
    match step
    case Trade(p) => p.outMint == m ==> p.maxSupply == cap
    case MintToBoss(mint, _, _, c) => mint == m ==> c == cap
    case _ => true
  }

  /** What a redemption mints of m, less what it burns of it, fits in the room below `limit`. */
  ghost predicate RedemptionFits(s: State, step: LedgerStep, m: Id, limit: u64) {
    step.Redemption? && step.ops.outMint == m && m < |s.mints| && Controls(s, m)
    && ExecuteRedemption(s, step.ops).Ok? ==>
      s.mints[m].supply - At(step.ops.inMint == m, step.ops.net) + step.ops.out <= limit
  }

  /** From below the limit a step stays below it exactly when it is no redemption that does not fit. */
  lemma StepUnderLimit(s: State, step: LedgerStep, m: Id, cap: u64, limit: u64)
    requires m < |s.mints| && 0 < cap <= limit && CappedAt(step, m, cap) && Supply(s, m) <= limit
    ensures |After(s, step).mints| == |s.mints|
    ensures Supply(After(s, step), m) <= limit <==> RedemptionFits(s, step, m, limit)
  {
    if Attempt(s, step).Ok? {
      match step
      case Trade(p) => ExecuteEffect(s, p);
      case Redemption(p) => RedemptionMoves(s, p);
      case MintToBoss(mint, boss, amount, c) => MintEffect(s, mint, boss, amount, c, s.mints[mint].supply);
      case Move(mint, from, to, amount) => TransferEffect(s, mint, from, to, amount);
      case OpenAccount(mint) =>
      case SetAuthority(mint, authority) =>
    }
  }

  /** The supply of m never passes the limit, at any point of the run. */
  ghost predicate StaysWithin(s: State, steps: seq<LedgerStep>, m: Id, limit: u64) {
    forall k :: 0 <= k <= |steps| ==> Supply(RunLedger(s, steps[..k]), m) <= limit
  }

  /** Every redemption of the run fits where it happens. */
  ghost predicate RedemptionsFit(s: State, steps: seq<LedgerStep>, m: Id, limit: u64) {
    forall k :: 0 <= k < |steps| ==> RedemptionFits(RunLedger(s, steps[..k]), steps[k], m, limit)
  }

  lemma RunSplits(s: State, steps: seq<LedgerStep>, k: nat)
    requires k < |steps|
    ensures RunLedger(s, steps[..k + 1]) == After(RunLedger(s, steps[..k]), steps[k])
  {
    assert steps[..k + 1][..k] == steps[..k];
  }

  lemma {:induction false} FitsUpTo(s: State, steps: seq<LedgerStep>, m: Id, cap: u64, limit: u64, k: nat)
    requires m < |s.mints| && 0 < cap <= limit && Supply(s, m) <= limit && k <= |steps|
    requires forall step :: step in steps ==> CappedAt(step, m, cap)
    requires StaysWithin(s, steps, m, limit) || RedemptionsFit(s, steps, m, limit)
    ensures |RunLedger(s, steps[..k]).mints| == |s.mints| && Supply(RunLedger(s, steps[..k]), m) <= limit
    ensures k > 0 ==> RedemptionFits(RunLedger(s, steps[..k - 1]), steps[k - 1], m, limit)
  {
    if k == 0 {
      assert RunLedger(s, steps[..0]) == s;
    } else {
      FitsUpTo(s, steps, m, cap, limit, k - 1);
      RunSplits(s, steps, k - 1);
      assert steps[k - 1] in steps;
      StepUnderLimit(RunLedger(s, steps[..k - 1]), steps[k - 1], m, cap, limit);
    }
  }

  /** The cap over whole runs: the supply stays within the larger of where it began and the
      cap, at every point, exactly when every redemption fits in the room left when it comes.
      So it does in particular when no redemption pays out m. */
  lemma CapHolds(s: State, steps: seq<LedgerStep>, m: Id, cap: u64)
    requires m < |s.mints| && cap > 0
    requires forall step :: step in steps ==> CappedAt(step, m, cap)
    ensures var limit := Max(Supply(s, m), cap);
            StaysWithin(s, steps, m, limit) <==> RedemptionsFit(s, steps, m, limit)
    ensures (forall step: LedgerStep :: step in steps && step.Redemption? ==> step.ops.outMint != m) ==>
              StaysWithin(s, steps, m, Max(Supply(s, m), cap))
  {
    var limit: u64 := Max(Supply(s, m), cap);
    if StaysWithin(s, steps, m, limit) || RedemptionsFit(s, steps, m, limit) {
      forall k | 0 <= k <= |steps|
        ensures Supply(RunLedger(s, steps[..k]), m) <= limit
      {
        FitsUpTo(s, steps, m, cap, limit, k);
      }
      forall k | 0 <= k < |steps|
        ensures RedemptionFits(RunLedger(s, steps[..k]), steps[k], m, limit)
      {
        FitsUpTo(s, steps, m, cap, limit, k + 1);
      }
    }
    if forall step: LedgerStep :: step in steps && step.Redemption? ==> step.ops.outMint != m {
      assert forall k :: 0 <= k < |steps| ==> steps[k] in steps;
      assert RedemptionsFit(s, steps, m, limit);
    }
  }

  /** A redemption pays out without a cap. One that goes through takes the supply of its
      payout mint over a cap it respected before exactly when the program mints the payout
      and what it mints, less what it burns of the same mint, exceeds the room left. */
  lemma RedemptionExceedsCapIff(s: State, p: TokenOps, cap: u64)
    requires ExecuteRedemption(s, p).Ok? && p.outMint < |s.mints| && s.mints[p.outMint].supply <= cap
    ensures |ExecuteRedemption(s, p).value.mints| == |s.mints|
    ensures ExecuteRedemption(s, p).value.mints[p.outMint].supply > cap <==>
              && Controls(s, p.outMint)
              && p.out - At(p.inMint == p.outMint, p.net) > cap - s.mints[p.outMint].supply
  {
    RedemptionMoves(s, p);
  }

  /** It does happen: a supply at its cap of 10 is taken to 15. */
  lemma RedemptionExceedsCap()
    ensures exists s: State, p: TokenOps ::
              && Conserved(s) && NoTransferFees(s) && ExecuteRedemption(s, p).Ok? && p.outMint < |s.mints|
              && s.mints[p.outMint].supply <= 10
              && p.outMint < |ExecuteRedemption(s, p).value.mints|
              && ExecuteRedemption(s, p).value.mints[p.outMint].supply > 10
  {
    var accounts := [Account(0, 1), Account(0, 0), Account(1, 10)];
    var s := State(accounts, [Mint(1, None, false), Mint(10, Some(MINT_AUTHORITY), false)]);
    var p := TokenOps(0, 1, 0, 0, 1, 0, 1, 5, 2, 2, 10);
    assert accounts[..2][..1] == [Account(0, 1)] && accounts[..2] == [Account(0, 1), Account(0, 0)];
    assert Total(accounts[..2][..1], 0) == 1 && Total(accounts[..2][..1], 1) == 0;
    assert Total(accounts, 0) == 1 && Total(accounts, 1) == 10;
    assert Conserved(s);
    RedemptionSucceedsIff(s, p);
    RedemptionExceedsCapIff(s, p, 10);
  }

  // ---------------------------------------------------------------- supply queries

  /** `read_optional_ata_amount`: an account that was never opened counts as empty. */
  function VaultAmount(s: State, vault: Option<Id>): u64 {
    if vault.Some? && vault.value < |s.accounts| then s.accounts[vault.value].amount else 0
  }

  /** `get_circulating_supply`: an unchecked subtraction. */
  function GetCirculatingSupply(s: State, mint: Id, vault: Option<Id>): Result<u64>
    requires mint < |s.mints|
  {
    var supply, held := s.mints[mint].supply, VaultAmount(s, vault);
    if supply < held then Err(Panic) else Ok(supply - held)
  }

  /** `get_tvl` for a given price. */
  function GetTvl(s: State, mint: Id, vault: Option<Id>, price: u64): Result<u64>
    requires mint < |s.mints|
  {
    var supply :- GetCirculatingSupply(s, mint, vault);
    var value :- CheckedMul128(supply, price, Overflow);
    if value / 1_000_000_000 <= U64_MAX then Ok(value / 1_000_000_000) else Err(Overflow)
  }

  /** After any run from a conserving state the unchecked subtraction cannot underflow, and
      what it yields is the sum of all balances outside the vault. */
  lemma CirculatingSupplyExact(s: State, steps: seq<LedgerStep>, mint: Id, vault: Option<Id>)
    requires Conserved(s) && NoTransferFees(s) && mint < |s.mints|
    requires var t := RunLedger(s, steps);
             vault.Some? && vault.value < |t.accounts| ==> t.accounts[vault.value].mint == mint
    ensures var t := RunLedger(s, steps);
            && |t.mints| == |s.mints|
            && GetCirculatingSupply(t, mint, vault).Ok?
            && GetCirculatingSupply(t, mint, vault).value
               == if vault.Some? && vault.value < |t.accounts|
                  then Total(t.accounts[vault.value := t.accounts[vault.value].(amount := 0)], mint)
                  else Total(t.accounts, mint)
  {
    RunConserves(s, steps);
    var t := RunLedger(s, steps);
    if vault.Some? && vault.value < |t.accounts| {
      PartOfTotal(t.accounts, vault.value, vault.value, mint);
      TotalUpdate(t.accounts, vault.value, 0, mint);
    }
  }

  /** TVL is the floor of circulating supply times price over 10^9; only a result beyond 64
      bits makes the query fail. */
  lemma TvlExact(s: State, mint: Id, vault: Option<Id>, price: u64)
    requires mint < |s.mints| && GetCirculatingSupply(s, mint, vault).Ok?
    ensures var value := GetCirculatingSupply(s, mint, vault).value * price;
            && (GetTvl(s, mint, vault, price).Ok? <==> value < (U64_MAX + 1) * 1_000_000_000)
            && (GetTvl(s, mint, vault, price).Ok? ==>
                  var tvl := GetTvl(s, mint, vault, price).value;
                  tvl * 1_000_000_000 <= value < (tvl + 1) * 1_000_000_000)
  {
    var supply := GetCirculatingSupply(s, mint, vault).value;
    FixedPoint.MulMono(supply, U64_MAX, price, U64_MAX);
    FixedPoint.MulMono(0, supply, 0, price);
  }
}
