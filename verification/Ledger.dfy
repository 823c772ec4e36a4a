/** Account balances built from the blocks of a chain. */
module Ledger {
  import opened IntSets

  const WORD64 := 0x1_0000_0000_0000_0000

  type Value = x: int | 0 <= x < 0x1_0000_0000_0000_0000

  // Accounts are numbered; NOBODY is the empty address.
  const NOBODY := -1

  datatype Transaction = Transaction(from: int, to: int, value: Value)

  datatype Block = Block(transactions: seq<Transaction>)

  type Balances = map<int, Value>

  function BalanceIn(b: Balances, account: int): Value {
    if account in b then b[account] else 0
  }

  /* ---- one transaction ---- */

  // The sender pays: neither the empty address nor a sender that is its own receiver does.
  predicate Pays(tx: Transaction) {
    tx.from != NOBODY && tx.from != tx.to
  }

  // A sender that must pay and cannot makes the transaction void.
  predicate IsExecuted(b: Balances, tx: Transaction) {
    tx.value > 0 && (Pays(tx) ==> tx.from in b && b[tx.from] >= tx.value)
  }

  function Debited(b: Balances, tx: Transaction): Balances
    requires IsExecuted(b, tx)
  {
    if Pays(tx) then b[tx.from := b[tx.from] - tx.value] else b
  }

  // The sum wraps around in a 64-bit word.
  function Credited(b: Balances, tx: Transaction): Balances {
    if tx.to == NOBODY then b
    else b[tx.to := if tx.to in b then (b[tx.to] + tx.value) % WORD64 else tx.value]
  }

  function Settled(b: Balances, tx: Transaction): Balances {
    if IsExecuted(b, tx) then Credited(Debited(b, tx), tx) else b
  }

  function SettledAll(b: Balances, txs: seq<Transaction>): Balances {
    if |txs| == 0 then b else Settled(SettledAll(b, txs[..|txs| - 1]), txs[|txs| - 1])
  }

  /* ---- conservation ---- */

  ghost function Total(b: Balances): (t: nat)
    decreases |b|
  {
    if b == map[] then 0
    else
      var k := LeastOf(b.Keys);
      b[k] + Total(b - {k})
  }

  // A transaction that is carried out without a payer mints its value; one without a receiver burns it.
  ghost function Mint(b: Balances, tx: Transaction): nat {
    if IsExecuted(b, tx) && !Pays(tx) then tx.value else 0
  }

  ghost function Burn(b: Balances, tx: Transaction): nat {
    if IsExecuted(b, tx) && tx.to == NOBODY then tx.value else 0
  }

  // The value that came into being, and the value that left, over a run of transactions.
  ghost function Minted(b: Balances, txs: seq<Transaction>): (v: nat) {
    if |txs| == 0 then 0
    else
      var k := |txs| - 1;
      Minted(b, txs[..k]) + Mint(SettledAll(b, txs[..k]), txs[k])
  }

  ghost function Burned(b: Balances, txs: seq<Transaction>): (v: nat) {
    if |txs| == 0 then 0
    else
      var k := |txs| - 1;
      Burned(b, txs[..k]) + Burn(SettledAll(b, txs[..k]), txs[k])
  }

  // The credit of the transaction does not fit its 64-bit word.
  predicate Wraps(b: Balances, tx: Transaction) {
    IsExecuted(b, tx) && tx.to != NOBODY && BalanceIn(Debited(b, tx), tx.to) + tx.value >= WORD64
  }

  ghost function WrapCount(b: Balances, txs: seq<Transaction>): (n: nat) {
    if |txs| == 0 then 0
    else
      var k := |txs| - 1;
      WrapCount(b, txs[..k]) + (if Wraps(SettledAll(b, txs[..k]), txs[k]) then 1 else 0)
  }

  lemma {:induction false} TotalRemove(b: Balances, k: int)
    requires k in b
    ensures Total(b) == b[k] + Total(b - {k})
    decreases |b|
  {
    var m := LeastOf(b.Keys);
    if k != m {
      TotalRemove(b - {m}, k);
      TotalRemove(b - {k}, m);
      TotalStep(b);
      assert b - {m} - {k} == b - {k} - {m};
    }
  }

  lemma TotalStep(b: Balances)
    requires b != map[]
    ensures var m := LeastOf(b.Keys);
            m in b && Total(b) == b[m] + Total(b - {m})
  {
  }

  lemma TotalUpdate(b: Balances, k: int, v: Value)
    ensures Total(b[k := v]) == Total(b) - BalanceIn(b, k) + v
  {
    hide Total;
    TotalRemove(b[k := v], k);
    assert b[k := v] - {k} == b - {k};
    if k in b {
      TotalRemove(b, k);
    } else {
      assert b - {k} == b;
    }
  }

  lemma BalanceBelowTotal(b: Balances, k: int)
    ensures BalanceIn(b, k) <= Total(b)
  {
    hide Total;
    if k in b {
      TotalRemove(b, k);
    }
  }

  // One transaction moves, mints or burns its value; a credit that wraps loses 2^64.
  lemma SettledTotal(b: Balances, tx: Transaction)
    ensures Total(Settled(b, tx)) + (if Wraps(b, tx) then WORD64 else 0) == Total(b) + Mint(b, tx) - Burn(b, tx)
    ensures Total(b) + Mint(b, tx) < WORD64 ==> !Wraps(b, tx)
  {
    hide Total;
    if IsExecuted(b, tx) {
      var d := Debited(b, tx);
      if Pays(tx) {
        TotalUpdate(b, tx.from, b[tx.from] - tx.value);
      }
      if tx.to != NOBODY {
        BalanceBelowTotal(d, tx.to);
        TotalUpdate(d, tx.to, (BalanceIn(d, tx.to) + tx.value) % WORD64);
      }
    }
  }

  // Over any transactions the total changes by what was minted and burned, less 2^64 for every credit that wrapped;
  // none wraps while what there was and what was minted fit into 64 bits.
  lemma {:induction false} Conservation(b: Balances, txs: seq<Transaction>)
    ensures Total(SettledAll(b, txs)) + WORD64 * WrapCount(b, txs) == Total(b) + Minted(b, txs) - Burned(b, txs)
    ensures Total(b) + Minted(b, txs) < WORD64 ==> WrapCount(b, txs) == 0
    decreases |txs|
  {
    hide Total, Settled, Wraps, IsExecuted;
    if |txs| > 0 {
      var k := |txs| - 1;
      Conservation(b, txs[..k]);
      SettledTotal(SettledAll(b, txs[..k]), txs[k]);
    }
  }

  // The total is exactly what was minted less what was burned if and only if no credit wrapped.
  lemma ConservedExactly(txs: seq<Transaction>)
    ensures Total(SettledAll(map[], txs)) == Minted(map[], txs) - Burned(map[], txs) <==> WrapCount(map[], txs) == 0
    ensures Minted(map[], txs) < WORD64 ==> Total(SettledAll(map[], txs)) == Minted(map[], txs) - Burned(map[], txs)
  {
    Conservation(map[], txs);
  }

  // Two coins of 2^63 each for one account: the second credit wraps to zero.
  lemma WrapHappens()
    ensures var coin := Transaction(NOBODY, 1, 0x8000_0000_0000_0000);
            WrapCount(map[], [coin, coin]) == 1 && BalanceIn(SettledAll(map[], [coin, coin]), 1) == 0
  {
    var coin := Transaction(NOBODY, 1, 0x8000_0000_0000_0000);
    var one: Balances := map[1 := 0x8000_0000_0000_0000];
    assert [coin][..0] == [] && [coin, coin][..1] == [coin];
    assert !Wraps(map[], coin) && Settled(map[], coin) == one;
    assert SettledAll(map[], [coin]) == one && WrapCount(map[], [coin]) == 0;
    assert Wraps(one, coin) && Settled(one, coin)[1] == 0;
  }

  // The balance of every account after a transaction. It is carried out when its value is positive and its sender, if
  // there is one other than the receiver, has at least the value.
  lemma SettledExactly(b: Balances, tx: Transaction, account: int)
    ensures BalanceIn(Settled(b, tx), account) ==
      if tx.value == 0 || (tx.from != -1 && tx.from != tx.to && BalanceIn(b, tx.from) < tx.value) || account == -1
      then BalanceIn(b, account)
      else if account == tx.to then (BalanceIn(b, account) + tx.value) % 0x1_0000_0000_0000_0000
      else if account == tx.from then BalanceIn(b, account) - tx.value
      else BalanceIn(b, account)
  {
  }

  // A payment from one account to another is carried out if and only if the sender has the value, and moves just that.
  lemma PaymentExactly(b: Balances, tx: Transaction)
    requires tx.value > 0 && tx.from != -1 && tx.to != -1 && tx.from != tx.to
    ensures Settled(b, tx) != b <==> BalanceIn(b, tx.from) >= tx.value
    ensures BalanceIn(b, tx.from) >= tx.value ==>
      && BalanceIn(Settled(b, tx), tx.from) == BalanceIn(b, tx.from) - tx.value
      && (BalanceIn(b, tx.to) + tx.value < 0x1_0000_0000_0000_0000 ==>
          BalanceIn(Settled(b, tx), tx.to) == BalanceIn(b, tx.to) + tx.value)
    ensures Mint(b, tx) == Burn(b, tx) == 0
  {
    SettledExactly(b, tx, tx.from);
    SettledExactly(b, tx, tx.to);
  }

  // Value comes into being with a positive transaction that has no sender but its receiver, and goes with one that has
  // no receiver and is carried out.
  lemma MintAndBurn(b: Balances, tx: Transaction)
    ensures Mint(b, tx) == if tx.from == -1 || tx.from == tx.to then tx.value else 0
    ensures Burn(b, tx) == if tx.to == -1 && (tx.from == -1 || BalanceIn(b, tx.from) >= tx.value) then tx.value else 0
  {
  }

  // A payment between others leaves an account alone; nobody is charged more than the balance.
  lemma OnlyPartiesChange(b: Balances, tx: Transaction, account: int)
    requires account != tx.from && account != tx.to
    ensures BalanceIn(Settled(b, tx), account) == BalanceIn(b, account)
  {
  }

  /* ---- the chain ---- */

  function SettledBlocks(b: Balances, blocks: seq<Block>): Balances {
    if |blocks| == 0 then b
    else SettledAll(SettledBlocks(b, blocks[..|blocks| - 1]), blocks[|blocks| - 1].transactions)
  }

  // The blocks in the order of their indices.
  ghost function Ordered(blocks: map<int, Block>): seq<Block>
    decreases |blocks|
  {
    if blocks == map[] then []
    else
      var k := LeastOf(blocks.Keys);
      [blocks[k]] + Ordered(blocks - {k})
  }

  // A block with a higher index than all others comes last.
  lemma {:induction false} OrderedAppend(blocks: map<int, Block>, k: int, b: Block)
    requires forall j :: j in blocks ==> j < k
    ensures Ordered(blocks[k := b]) == Ordered(blocks) + [b]
    decreases |blocks|
  {
    var all := blocks[k := b];
    assert k in all;
    var m := LeastOf(all.Keys);
    OrderedStep(all);
    if blocks == map[] {
      assert all - {m} == map[];
    } else {
      OrderedStep(blocks);
      var l := LeastOf(blocks.Keys);
      assert l in all.Keys && m in all.Keys;
      assert m == l;
      assert all - {m} == (blocks - {m})[k := b];
      OrderedAppend(blocks - {m}, k, b);
      assert [blocks[m]] + (Ordered(blocks - {m}) + [b]) == [blocks[m]] + Ordered(blocks - {m}) + [b];
    }
  }

  lemma OrderedStep(blocks: map<int, Block>)
    requires blocks != map[]
    ensures var k := LeastOf(blocks.Keys);
            k in blocks && Ordered(blocks) == [blocks[k]] + Ordered(blocks - {k})
  {
  }

  lemma SettledBlocksSnoc(b: Balances, blocks: seq<Block>, last: Block)
    ensures SettledBlocks(b, blocks + [last]) == SettledAll(SettledBlocks(b, blocks), last.transactions)
  {
    assert (blocks + [last])[..|blocks|] == blocks;
  }

  // What was minted, burned and lost to wrapping over the blocks of a chain.
  ghost function BlocksMinted(b: Balances, blocks: seq<Block>): (v: nat) {
    if |blocks| == 0 then 0
    else
      var k := |blocks| - 1;
      BlocksMinted(b, blocks[..k]) + Minted(SettledBlocks(b, blocks[..k]), blocks[k].transactions)
  }

  ghost function BlocksBurned(b: Balances, blocks: seq<Block>): (v: nat) {
    if |blocks| == 0 then 0
    else
      var k := |blocks| - 1;
      BlocksBurned(b, blocks[..k]) + Burned(SettledBlocks(b, blocks[..k]), blocks[k].transactions)
  }

  ghost function BlockWraps(b: Balances, blocks: seq<Block>): (n: nat) {
    if |blocks| == 0 then 0
    else
      var k := |blocks| - 1;
      BlockWraps(b, blocks[..k]) + WrapCount(SettledBlocks(b, blocks[..k]), blocks[k].transactions)
  }

  lemma {:induction false} BlocksConserve(b: Balances, blocks: seq<Block>)
    ensures Total(SettledBlocks(b, blocks)) + WORD64 * BlockWraps(b, blocks) ==
            Total(b) + BlocksMinted(b, blocks) - BlocksBurned(b, blocks)
    ensures Total(b) + BlocksMinted(b, blocks) < WORD64 ==> BlockWraps(b, blocks) == 0
    decreases |blocks|
  {
    hide Total, SettledAll, WrapCount, Minted, Burned;
    if |blocks| > 0 {
      var k := |blocks| - 1;
      BlocksConserve(b, blocks[..k]);
      Conservation(SettledBlocks(b, blocks[..k]), blocks[k].transactions);
    }
  }

  // The balances of a synchronised chain add up to what its blocks minted less what they burned if and only if no
  // credit wrapped, and none did while less than 2^64 was minted.
  lemma ChainConserves(chain: BlockChain)
    requires chain.Synced()
    ensures var blocks := Ordered(chain.blocks);
            && (Total(chain.balances) == BlocksMinted(map[], blocks) - BlocksBurned(map[], blocks) <==>
                BlockWraps(map[], blocks) == 0)
            && (BlocksMinted(map[], blocks) < WORD64 ==>
                Total(chain.balances) == BlocksMinted(map[], blocks) - BlocksBurned(map[], blocks))
  {
    hide Ordered, SettledBlocks;
    BlocksConserve(map[], Ordered(chain.blocks));
  }

  class BlockChain {
    var blocks: map<int, Block>
    var balances: Balances
    var lastBlockIndex: int

    // The balances are those of all blocks settled in the order of their indices.
    ghost predicate Synced()
      reads this
    {
      balances == SettledBlocks(map[], Ordered(blocks))
    }

    constructor ()
      ensures blocks == map[] && balances == map[] && lastBlockIndex == 0 && Synced()
    {
      blocks, balances, lastBlockIndex := map[], map[], 0;
    }

    method AppendBlock(index: int, b: Block, buildBalance: bool) returns (ok: bool)
      modifies this
      ensures ok == (index !in old(blocks))
      ensures !ok ==> blocks == old(blocks) && balances == old(balances) && lastBlockIndex == old(lastBlockIndex)
      ensures ok ==> blocks == old(blocks)[index := b]
      ensures ok ==> balances == if buildBalance then SettledAll(old(balances), b.transactions) else old(balances)
      ensures ok ==> lastBlockIndex == if old(lastBlockIndex) < index then index else old(lastBlockIndex)
      ensures ok && buildBalance && old(Synced()) && (forall j :: j in old(blocks) ==> j < index) ==> Synced()
    {
      hide Ordered, SettledBlocks, SettledAll;
      if index in blocks {
        return false;
      }
      ghost var was := blocks;
      blocks := blocks[index := b];
      if lastBlockIndex < index {
        lastBlockIndex := index;
      }
      if buildBalance {
        BuildBalanceFor(b);
        if forall j :: j in was ==> j < index {
          OrderedAppend(was, index, b);
          SettledBlocksSnoc(map[], Ordered(was), b);
        }
      }
      return true;
    }

    function BalanceOf(account: int): Value
      reads this
    {
      BalanceIn(balances, account)
    }

    // Settles the blocks once more on top of the balances there are.
    method RebuildBalance()
      modifies this`balances
      ensures balances == SettledBlocks(old(balances), Ordered(blocks))
      ensures old(balances) == map[] ==> Synced()
    {
      ghost var start := balances;
      var rest := blocks;
      ghost var done: seq<Block> := [];
      while rest != map[]
        invariant done + Ordered(rest) == Ordered(blocks)
        invariant balances == SettledBlocks(start, done)
        decreases |rest|
      {
        var k := Least(rest.Keys);
        OrderedStep(rest);
        assert k == LeastOf(rest.Keys);
        BuildBalanceFor(rest[k]);
        SettledBlocksSnoc(start, done, rest[k]);
        assert done + ([rest[k]] + Ordered(rest - {k})) == done + [rest[k]] + Ordered(rest - {k});
        done := done + [rest[k]];
        rest := rest - {k};
      }
      assert done + [] == done;
    }

    method BuildBalanceFor(b: Block)
      modifies this`balances
      ensures balances == SettledAll(old(balances), b.transactions)
    {
      var txs := b.transactions;
      var i := 0;
      while i < |txs|
        invariant i <= |txs| && balances == SettledAll(old(balances), txs[..i])
      {
        assert txs[..i + 1][..i] == txs[..i];
        Settle(txs[i]);
        i := i + 1;
      }
      assert txs[..i] == txs;
    }

    method Settle(tx: Transaction)
      modifies this`balances
      ensures balances == Settled(old(balances), tx)
    {
      if tx.value == 0 {
        return;
      }
      if tx.from != NOBODY && tx.from != tx.to {
        if tx.from in balances && balances[tx.from] >= tx.value {
          balances := balances[tx.from := balances[tx.from] - tx.value];
        } else {
          return;
        }
      }
      if tx.to != NOBODY {
        if tx.to in balances {
          balances := balances[tx.to := (balances[tx.to] + tx.value) % WORD64];
        } else {
          balances := balances[tx.to := tx.value];
        }
      }
    }
  }
}
