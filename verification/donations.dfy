/**
 Planning of `distribute_donations`: which accounts take part (`get_accounts_scraped`),
 when a distribution runs at all, and how the accounts are packed into application
 calls and atomic groups.

 Balances are parameters, read from the chain before planning. Signing, the snapshot
 call, submission, retries and confirmation polling are not modelled; the plan is the
 list of atomic groups the handler would submit, together with the snapshot argument.
 */
module Donations {
  import opened Basics
  import opened Schema
  import Tables

  /** The distribution runs only when the contract holds at least this many microALGO. */
  const DistributionThreshold := 1_000_000

  /** Accounts paid by one application call. */
  const AccountsPerCall := 4

  /** Transactions in one atomic group. */
  const GroupSize := 16

  /** Base fee of every transaction, and the fee of each inner payment, in microALGO. */
  const Fee := 1000

  /** A row of `get_accounts_scraped`: an address and how many archived articles it uploaded. */
  datatype AccountRow = AccountRow(address: string, scraped: nat)

  /** The number of archived articles (`bucketURL` set) linked to account `i`. */
  function ScrapedCount(s: Store, i: nat): (r: nat)
    ensures r <= |s.articles|
  {
    var ids := Tables.Positions(s.articles, (a: Article) => a.account == Some(i) && a.bucketUrl.Some?);
    assert forall k :: 0 <= k < |ids| ==> ids[k] in ids;
    IdsBounded(ids, |s.articles|);
    |ids|
  }

  /** The accounts with at least one archived article, in table order. */
  function ScrapedAccountIds(s: Store): (r: seq<nat>)
    ensures forall i :: i in r <==> 0 <= i < |s.accounts| && ScrapedCount(s, i) > 0
    ensures forall a, b :: 0 <= a < b < |r| ==> r[a] < r[b]
  {
    var all: seq<nat> := seq(|s.accounts|, i => i);
    Tables.Positions(all, (i: nat) => ScrapedCount(s, i) > 0)
  }

  /**
   `get_accounts_scraped()`: each account annotated with its count of archived
   articles, keeping those with a positive count.
   */
  function AccountsScraped(s: Store): (r: seq<AccountRow>)
    ensures |r| == |ScrapedAccountIds(s)| <= |s.accounts|
    ensures forall k :: 0 <= k < |r| ==>
              var i := ScrapedAccountIds(s)[k];
              i < |s.accounts| && r[k] == AccountRow(s.accounts[i].address, ScrapedCount(s, i))
    ensures forall k :: 0 <= k < |r| ==> r[k].scraped > 0
  {
    var ids := ScrapedAccountIds(s);
    assert forall k :: 0 <= k < |ids| ==> ids[k] in ids;
    IdsBounded(ids, |s.accounts|);
    seq(|ids|, k requires 0 <= k < |ids| => AccountRow(s.accounts[ids[k]].address, ScrapedCount(s, ids[k])))
  }

  /** Strictly increasing positions below `n` number at most `n`. */
  lemma {:induction false} IdsBounded(ids: seq<nat>, n: nat)
    requires forall k :: 0 <= k < |ids| ==> ids[k] < n
    requires forall a, b :: 0 <= a < b < |ids| ==> ids[a] < ids[b]
    ensures |ids| <= n
    decreases n
  {
    if |ids| > 0 {
      var last := ids[|ids| - 1];
      IdsBounded(ids[..|ids| - 1], last);
    }
  }

  /** Every account with an archived article is listed, and with its own count. */
  lemma AccountsScrapedComplete(s: Store, i: nat)
    requires i < |s.accounts| && ScrapedCount(s, i) > 0
    ensures AccountRow(s.accounts[i].address, ScrapedCount(s, i)) in AccountsScraped(s)
  {
    var ids := ScrapedAccountIds(s);
    var k :| 0 <= k < |ids| && ids[k] == i;
    assert AccountsScraped(s)[k] == AccountRow(s.accounts[i].address, ScrapedCount(s, i));
  }

  /** An account without archived articles is not listed. */
  lemma NoArchiveNoRow(s: Store, i: nat)
    requires i < |s.accounts| && ScrapedCount(s, i) == 0
    ensures i !in ScrapedAccountIds(s)
  {
  }

  /** The application call paying one chunk of accounts. */
  datatype Call = Call(fee: nat, scraped: seq<nat>, addresses: seq<string>)

  /** Pieces of `rows` from `from` on: `min(4, remaining)` rows each. */
  function ChunksFrom(rows: seq<AccountRow>, from: nat): (r: seq<seq<AccountRow>>)
    requires from <= |rows|
    ensures forall c :: 0 <= c < |r| ==> 1 <= |r[c]| <= AccountsPerCall
    ensures forall c :: 0 <= c < |r| - 1 ==> |r[c]| == AccountsPerCall
    decreases |rows| - from
  {
    if from == |rows| then []
    else
      var m := Min(AccountsPerCall, |rows| - from);
      [rows[from .. from + m]] + ChunksFrom(rows, from + m)
  }

  /** There are `ceil(n / 4)` chunks of `n` rows. */
  lemma {:induction false} ChunkCount(rows: seq<AccountRow>, from: nat)
    requires from <= |rows|
    ensures |ChunksFrom(rows, from)| == (|rows| - from + AccountsPerCall - 1) / AccountsPerCall
    decreases |rows| - from
  {
    if from < |rows| {
      ChunkCount(rows, from + Min(AccountsPerCall, |rows| - from));
    }
  }

  function Flatten<T>(xss: seq<seq<T>>): seq<T> {
    if |xss| == 0 then [] else xss[0] + Flatten(xss[1..])
  }

  lemma {:induction false} FlattenAppend<T>(a: seq<seq<T>>, b: seq<seq<T>>)
    ensures Flatten(a + b) == Flatten(a) + Flatten(b)
    decreases |a|
  {
    if |a| > 0 {
      FlattenAppend(a[1..], b);
      assert (a + b)[0] == a[0];
      assert (a + b)[1..] == a[1..] + b;
    } else {
      assert a + b == b;
    }
  }

  /** The chunks, read in order, are the account list again. */
  lemma {:induction false} ChunksFlatten(rows: seq<AccountRow>, from: nat)
    requires from <= |rows|
    ensures Flatten(ChunksFrom(rows, from)) == rows[from..]
    decreases |rows| - from
  {
    if from < |rows| {
      var m := Min(AccountsPerCall, |rows| - from);
      ChunksFlatten(rows, from + m);
      assert ChunksFrom(rows, from)[1..] == ChunksFrom(rows, from + m);
      assert rows[from..] == rows[from .. from + m] + rows[from + m ..];
    }
  }

  function Addresses(rows: seq<AccountRow>): (r: seq<string>)
    ensures |r| == |rows| && forall k :: 0 <= k < |rows| ==> r[k] == rows[k].address
  {
    seq(|rows|, k requires 0 <= k < |rows| => rows[k].address)
  }

  function Scraped(rows: seq<AccountRow>): (r: seq<nat>)
    ensures |r| == |rows| && forall k :: 0 <= k < |rows| ==> r[k] == rows[k].scraped
  {
    seq(|rows|, k requires 0 <= k < |rows| => rows[k].scraped)
  }

  /**
   The call for one chunk: the fee covers the call and one inner payment per account,
   the arguments carry each account's count and the account list its address.
   */
  function CallOf(chunk: seq<AccountRow>): (r: Call)
    ensures r.fee == Fee + Fee * |chunk|
    ensures r.scraped == Scraped(chunk) && r.addresses == Addresses(chunk)
  {
    Call(Fee + Fee * |chunk|, Scraped(chunk), Addresses(chunk))
  }

  /** The calls for the chunks from `from` on, in order. */
  function CallsFrom(rows: seq<AccountRow>, from: nat): seq<Call>
    requires from <= |rows|
    decreases |rows| - from
  {
    if from == |rows| then []
    else
      var m := Min(AccountsPerCall, |rows| - from);
      [CallOf(rows[from .. from + m])] + CallsFrom(rows, from + m)
  }

  /** The calls `distribute_donations` builds for the account list `rows`. */
  function Calls(rows: seq<AccountRow>): seq<Call> {
    CallsFrom(rows, 0)
  }

  /** Call `c` pays chunk `c`. */
  lemma {:induction false} CallsMatchChunks(rows: seq<AccountRow>, from: nat)
    requires from <= |rows|
    ensures |CallsFrom(rows, from)| == |ChunksFrom(rows, from)|
    ensures forall c :: 0 <= c < |CallsFrom(rows, from)| ==> CallsFrom(rows, from)[c] == CallOf(ChunksFrom(rows, from)[c])
    decreases |rows| - from
  {
    if from < |rows| {
      var m := Min(AccountsPerCall, |rows| - from);
      CallsMatchChunks(rows, from + m);
      assert ChunksFrom(rows, from) == [rows[from .. from + m]] + ChunksFrom(rows, from + m);
    }
  }

  /** The sum of the rows' counts: the snapshot's `total_scraped`. */
  function Total(rows: seq<AccountRow>): nat {
    if |rows| == 0 then 0 else Total(rows[..|rows| - 1]) + rows[|rows| - 1].scraped
  }

  function Fees(calls: seq<Call>): nat {
    if |calls| == 0 then 0 else Fees(calls[..|calls| - 1]) + calls[|calls| - 1].fee
  }

  /**
   The manager's balance the handler demands: its minimum balance, one fee per call
   (`ceil(n / 4)` of them) and one per account.
   */
  function FundsNeeded(minBalance: int, n: nat): int {
    minBalance + (n + AccountsPerCall - 1) / AccountsPerCall * Fee + n * Fee
  }

  /** The fees of the planned calls add up to exactly what the funds check reserves beyond the minimum balance. */
  lemma FeesMatchFundsNeeded(rows: seq<AccountRow>, minBalance: int)
    ensures Fees(Calls(rows)) == FundsNeeded(minBalance, |rows|) - minBalance
  {
    var chunks := ChunksFrom(rows, 0);
    CallsMatchChunks(rows, 0);
    ChunkFees(chunks, Calls(rows));
    ChunksFlatten(rows, 0);
    ChunkCount(rows, 0);
    assert rows[0..] == rows;
  }

  lemma {:induction false} ChunkFees(chunks: seq<seq<AccountRow>>, calls: seq<Call>)
    requires |calls| == |chunks| && forall c :: 0 <= c < |calls| ==> calls[c] == CallOf(chunks[c])
    ensures Fees(calls) == Fee * |calls| + Fee * |Flatten(chunks)|
    decreases |calls|
  {
    if |calls| > 0 {
      var n := |calls| - 1;
      ChunkFees(chunks[..n], calls[..n]);
      FlattenAppend(chunks[..n], [chunks[n]]);
      assert chunks == chunks[..n] + [chunks[n]];
      assert Flatten([chunks[n]]) == chunks[n] by {
        assert [chunks[n]][1..] == [];
      }
    }
  }

  /** Why the handler stops, and what it answers then. */
  datatype Distribution =
    | WrongToken          // 400
    | BelowThreshold      // 200 with no body: nothing to distribute yet
    | InsufficientFunds   // 500
    | Planned(groups: seq<seq<Call>>, totalScraped: nat)

  /** Adds `call` to the groups: a new group when there is none or the last is full. */
  function AddCall(groups: seq<seq<Call>>, call: Call): (r: seq<seq<Call>>)
    ensures Flatten(r) == Flatten(groups) + [call]
    ensures Grouped(groups) ==> Grouped(r)
  {
    if |groups| == 0 || |groups[|groups| - 1]| == GroupSize then
      FlattenSnoc(groups, [call]);
      groups + [[call]]
    else
      var n := |groups| - 1;
      FlattenSnoc(groups[..n], groups[n]);
      FlattenSnoc(groups[..n], groups[n] + [call]);
      assert groups == groups[..n] + [groups[n]];
      groups[..n] + [groups[n] + [call]]
  }

  lemma FlattenSnoc<T>(xss: seq<seq<T>>, xs: seq<T>)
    ensures Flatten(xss + [xs]) == Flatten(xss) + xs
  {
    FlattenAppend(xss, [xs]);
    assert [xs][1..] == [];
  }

  /** Every group holds 1 to 16 calls, and all but the last exactly 16. */
  predicate Grouped(groups: seq<seq<Call>>) {
    && (forall g :: 0 <= g < |groups| ==> 1 <= |groups[g]| <= GroupSize)
    && (forall g :: 0 <= g < |groups| - 1 ==> |groups[g]| == GroupSize)
  }

  /**
   The planning loop of `distribute_donations`: the accounts are taken four at a time,
   each chunk becomes one call, calls are packed into groups of sixteen, and the counts
   are summed for the snapshot.
   */
  method Plan(rows: seq<AccountRow>) returns (groups: seq<seq<Call>>, totalScraped: nat)
    ensures Flatten(groups) == Calls(rows)
    ensures Grouped(groups)
    ensures totalScraped == Total(rows)
  {
    groups, totalScraped := [], 0;
    var i := 0;
    while i < |rows|
      invariant 0 <= i <= |rows|
      invariant Flatten(groups) + CallsFrom(rows, i) == Calls(rows)
      invariant Grouped(groups)
      invariant totalScraped == Total(rows[..i])
      decreases |rows| - i
    {
      var m := Min(AccountsPerCall, |rows| - i);
      var chunk := rows[i .. i + m];
      var part := SumOf(chunk);
      var before := groups;
      groups := AddCall(groups, CallOf(chunk));
      CallsStep(rows, i, Flatten(before), Flatten(groups));
      TotalStep(rows, i, m);
      totalScraped := totalScraped + part;
      i := i + m;
    }
    assert rows[..i] == rows;
  }

  /** One turn of the planning loop keeps the calls invariant. */
  lemma CallsStep(rows: seq<AccountRow>, i: nat, before: seq<Call>, after: seq<Call>)
    requires i < |rows|
    requires before + CallsFrom(rows, i) == Calls(rows)
    requires after == before + [CallOf(rows[i .. i + Min(AccountsPerCall, |rows| - i)])]
    ensures after + CallsFrom(rows, i + Min(AccountsPerCall, |rows| - i)) == Calls(rows)
  {
    var m := Min(AccountsPerCall, |rows| - i);
    var call := CallOf(rows[i .. i + m]);
    var rest := CallsFrom(rows, i + m);
    assert CallsFrom(rows, i) == [call] + rest;
    assert (before + [call]) + rest == before + ([call] + rest);
  }

  /** One turn of the planning loop keeps the running total. */
  lemma TotalStep(rows: seq<AccountRow>, i: nat, m: nat)
    requires i + m <= |rows|
    ensures Total(rows[..i]) + Total(rows[i .. i + m]) == Total(rows[..i + m])
  {
    TotalAppend(rows[..i], rows[i .. i + m]);
    assert rows[..i] + rows[i .. i + m] == rows[..i + m];
  }

  /** The total of a chunk's counts, as the inner loop adds them up. */
  method SumOf(chunk: seq<AccountRow>) returns (total: nat)
    ensures total == Total(chunk)
  {
    total := 0;
    var k := 0;
    while k < |chunk|
      invariant 0 <= k <= |chunk|
      invariant total == Total(chunk[..k])
    {
      assert chunk[..k + 1][..k] == chunk[..k];
      total := total + chunk[k].scraped;
      k := k + 1;
    }
    assert chunk[..k] == chunk;
  }

  lemma {:induction false} TotalAppend(a: seq<AccountRow>, b: seq<AccountRow>)
    ensures Total(a + b) == Total(a) + Total(b)
    decreases |b|
  {
    if |b| > 0 {
      var n := |b| - 1;
      TotalAppend(a, b[..n]);
      assert (a + b)[..|a + b| - 1] == a + b[..n];
      assert (a + b)[|a + b| - 1] == b[n];
    } else {
      assert a + b == a;
    }
  }

  /**
   `distribute_donations`: the request's `distributeToken` must equal the configured
   one, the contract must hold at least the threshold, and the manager must afford
   `FundsNeeded`; then the accounts are planned.
   */
  method Distribute(token: Option<string>, configured: string, contractAmount: int, managerAmount: int,
                    minBalance: int, s: Store) returns (r: Distribution)
    ensures token != Some(configured) <==> r == WrongToken
    ensures r == BelowThreshold <==> token == Some(configured) && contractAmount < DistributionThreshold
    ensures r == InsufficientFunds <==>
              token == Some(configured) && contractAmount >= DistributionThreshold
              && managerAmount < FundsNeeded(minBalance, |AccountsScraped(s)|)
    ensures r.Planned? ==>
              && Flatten(r.groups) == Calls(AccountsScraped(s)) && Grouped(r.groups)
              && r.totalScraped == Total(AccountsScraped(s))
              && managerAmount >= FundsNeeded(minBalance, |AccountsScraped(s)|)
  {
    if token != Some(configured) {
      return WrongToken;
    }
    if contractAmount < DistributionThreshold {
      return BelowThreshold;
    }
    var accounts := AccountsScraped(s);
    if managerAmount < FundsNeeded(minBalance, |accounts|) {
      return InsufficientFunds;
    }
    var groups, total := Plan(accounts);
    return Planned(groups, total);
  }

  /**
   The confirmation check looks at transactions 0, 16, 32, ... of the submitted list,
   one per group: with full groups before the last, position `16 * g` is the first
   transaction of group `g`.
   */
  lemma {:induction false} SampledAreGroupHeads(groups: seq<seq<Call>>, g: nat)
    requires Grouped(groups) && g < |groups|
    ensures GroupSize * g < |Flatten(groups)|
    ensures Flatten(groups)[GroupSize * g] == groups[g][0]
    decreases g
  {
    if g > 0 {
      SampledAreGroupHeads(groups[1..], g - 1);
    }
  }

  /** There are as many sampled positions as groups: the last group starts below the list's end. */
  lemma {:induction false} GroupCount(groups: seq<seq<Call>>)
    requires Grouped(groups) && |groups| > 0
    ensures |Flatten(groups)| == GroupSize * (|groups| - 1) + |groups[|groups| - 1]|
    ensures (|Flatten(groups)| + GroupSize - 1) / GroupSize == |groups|
    decreases |groups|
  {
    if |groups| > 1 {
      GroupCount(groups[1..]);
    }
  }
}
