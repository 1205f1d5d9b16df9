/** The ledger as the program drives it: one token-program call after another. */
module TokenLedgers {
  import opened Machine
  import opened Ledger

  class TokenLedger {
    var accounts: seq<Account>
    var mints: seq<Mint>

    function Snapshot(): State
      reads this
    {
      State(accounts, mints)
    }

    constructor (s: State)
      ensures Snapshot() == s
    {
      accounts, mints := s.accounts, s.mints;
    }

    /** `transfer_tokens` */
    method TransferTokens(mint: Id, from: Id, to: Id, amount: u64) returns (r: Result<()>)
      modifies this
      ensures Outcome(r, Transfer(old(Snapshot()), mint, from, to, amount), old(Snapshot()), Snapshot())
    {
      if !Holds(Snapshot(), from, mint) || !Holds(Snapshot(), to, mint) {
        return Err(MintMismatch);
      }
      if accounts[from].amount < amount {
        return Err(InsufficientFunds);
      }
      if from != to {
        if accounts[to].amount + amount > U64_MAX {
          return Err(Overflow);
        }
        accounts := accounts[from := accounts[from].(amount := accounts[from].amount - amount)];
        accounts := accounts[to := accounts[to].(amount := accounts[to].amount + amount)];
      }
      return Ok(());
    }

    /** `burn_tokens` */
    method BurnTokens(mint: Id, from: Id, amount: u64) returns (r: Result<()>)
      modifies this
      ensures Outcome(r, Burn(old(Snapshot()), mint, from, amount), old(Snapshot()), Snapshot())
    {
      if !Holds(Snapshot(), from, mint) {
        return Err(MintMismatch);
      }
      if accounts[from].amount < amount {
        return Err(InsufficientFunds);
      }
      if mints[mint].supply < amount {
        return Err(Overflow);
      }
      accounts := accounts[from := accounts[from].(amount := accounts[from].amount - amount)];
      mints := mints[mint := mints[mint].(supply := mints[mint].supply - amount)];
      return Ok(());
    }

    /** `mint_tokens`; `readSupply` is the supply the instruction loaded before its first call. */
    method MintTokensTo(mint: Id, to: Id, amount: u64, maxSupply: u64, readSupply: u64) returns (r: Result<()>)
      modifies this
      ensures Outcome(r, MintTokens(old(Snapshot()), mint, to, amount, maxSupply, readSupply),
                      old(Snapshot()), Snapshot())
    {
      if maxSupply > 0 {
        if readSupply + amount > U64_MAX {
          return Err(Overflow);
        }
        if readSupply + amount > maxSupply {
          return Err(MaxSupplyExceeded);
        }
      }
      if !Holds(Snapshot(), to, mint) {
        return Err(MintMismatch);
      }
      if !Controls(Snapshot(), mint) {
        return Err(NoMintAuthority);
      }
      if mints[mint].supply + amount > U64_MAX || accounts[to].amount + amount > U64_MAX {
        return Err(Overflow);
      }
      accounts := accounts[to := accounts[to].(amount := accounts[to].amount + amount)];
      mints := mints[mint := mints[mint].(supply := mints[mint].supply + amount)];
      return Ok(());
    }

    /** `execute_token_operations`, with the rollback of a failing transaction. */
    method ExecuteTokenOperations(p: TokenOps) returns (r: Result<()>)
      modifies this
      ensures Outcome(r, Execute(old(Snapshot()), p), old(Snapshot()), Snapshot())
    {
      var accounts0, mints0 := accounts, mints;
      r := ExecuteCalls(p);
      if r.Err? {
        accounts, mints := accounts0, mints0;
      }
    }

    /** The calls of `execute_token_operations` in order, stopping at the first that fails. */
    method ExecuteCalls(p: TokenOps) returns (r: Result<()>)
      modifies this
      ensures r.Ok? ==> Execute(old(Snapshot()), p) == Ok(Snapshot())
      ensures r.Err? ==> Execute(old(Snapshot()), p) == Err(r.error)
    {
      if p.inMint >= |mints| || p.outMint >= |mints| {
        return Err(MintMismatch);
      }
      if mints[p.inMint].transferFee || mints[p.outMint].transferFee {
        return Err(TransferFeeNotSupported);
      }
      var readSupply := mints[p.outMint].supply;
      if Controls(Snapshot(), p.inMint) {
        var _ :- TransferTokens(p.inMint, p.payer, p.burnVault, p.net);
        var _ :- BurnTokens(p.inMint, p.burnVault, p.net);
        if p.fee > 0 {
          var _ :- TransferTokens(p.inMint, p.payer, p.boss, p.fee);
        }
      } else {
        if p.net + p.fee > U64_MAX {
          return Err(Overflow);
        }
        var _ :- TransferTokens(p.inMint, p.payer, p.boss, p.net + p.fee);
      }
      assert PayIn(old(Snapshot()), p) == Ok(Snapshot());
      if Controls(Snapshot(), p.outMint) {
        r := MintTokensTo(p.outMint, p.receiver, p.out, p.maxSupply, readSupply);
      } else {
        r := TransferTokens(p.outMint, p.outVault, p.receiver, p.out);
      }
    }

    /** `execute_redemption_operations` with no cap, and the rollback of a failing transaction. */
    method ExecuteRedemptionOperations(p: TokenOps) returns (r: Result<()>)
      modifies this
      ensures Outcome(r, ExecuteRedemption(old(Snapshot()), p), old(Snapshot()), Snapshot())
    {
      var accounts0, mints0 := accounts, mints;
      r := RedemptionCalls(p);
      if r.Err? {
        accounts, mints := accounts0, mints0;
      }
    }

    method RedemptionCalls(p: TokenOps) returns (r: Result<()>)
      modifies this
      ensures r.Ok? ==> ExecuteRedemption(old(Snapshot()), p) == Ok(Snapshot())
      ensures r.Err? ==> ExecuteRedemption(old(Snapshot()), p) == Err(r.error)
    {
      if p.inMint >= |mints| || p.outMint >= |mints| {
        return Err(MintMismatch);
      }
      var readSupply := mints[p.outMint].supply;
      if Controls(Snapshot(), p.inMint) {
        var _ :- BurnTokens(p.inMint, p.burnVault, p.net);
        if p.fee > 0 {
          var _ :- TransferTokens(p.inMint, p.burnVault, p.boss, p.fee);
        }
      } else {
        if p.net + p.fee > U64_MAX {
          return Err(Overflow);
        }
        var _ :- TransferTokens(p.inMint, p.burnVault, p.boss, p.net + p.fee);
      }
      assert RedeemIn(old(Snapshot()), p) == Ok(Snapshot());
      if Controls(Snapshot(), p.outMint) {
        r := MintTokensTo(p.outMint, p.receiver, p.out, 0, readSupply);
      } else {
        r := TransferTokens(p.outMint, p.outVault, p.receiver, p.out);
      }
    }

    /** `mint_to` */
    method MintToBoss(mint: Id, boss: Id, amount: u64, maxSupply: u64) returns (r: Result<()>)
      modifies this
      ensures Outcome(r, MintTo(old(Snapshot()), mint, boss, amount, maxSupply), old(Snapshot()), Snapshot())
    {
      if mint >= |mints| || !Controls(Snapshot(), mint) {
        return Err(NoMintAuthority);
      }
      r := MintTokensTo(mint, boss, amount, maxSupply, mints[mint].supply);
    }
  }

  /** A call did what `spec` says: the new state on success, nothing on failure. */
  ghost predicate Outcome(r: Result<()>, spec: Result<State>, before: State, after: State) {
    match spec
    case Ok(t) => r.Ok? && after == t
    case Err(e) => r == Err(e) && after == before
  }
}
