/**
  The transaction record the heatmap consumes, and what the heatmap reads
  from it: its time value, its calendar day and its fee.
 */
module Transactions {
  import opened Calendar
  import opened Seqs

  datatype Option<T> = None | Some(value: T)

  /** `raw_transaction.meta`: only the fee, in lamports, is read. */
  datatype Meta = Meta(fee: Option<int>)
  datatype RawTransaction = RawTransaction(meta: Option<Meta>)

  /** One record of the transaction list; `blockTime` is in microseconds since 1970-01-01. */
  datatype Transaction = Transaction(
    address: string,
    blockTime: int,
    chain: string,
    blockSlot: int,
    rawTransaction: Option<RawTransaction>)

  /**
    The time value of `new Date(blockTime / 1000)`: milliseconds, with the
    fraction dropped toward zero as the Date constructor does.
   */
  function TimeValue(tx: Transaction): (ms: int)
    ensures 0 <= tx.blockTime ==> 0 <= tx.blockTime - 1000 * ms < 1000
    ensures tx.blockTime < 0 ==> 0 <= 1000 * ms - tx.blockTime < 1000
  {
    if tx.blockTime >= 0 then tx.blockTime / 1000 else -((-tx.blockTime) / 1000)
  }

  /** The calendar day of the transaction: the date part of its `toISOString`. */
  function DayKey(tx: Transaction): (day: int)
    ensures day * MsPerDay <= TimeValue(tx) < (day + 1) * MsPerDay
  {
    DayOfTime(TimeValue(tx))
  }

  /** The record carries a raw transaction with a meta part that holds a fee. */
  predicate HasFee(tx: Transaction) {
    tx.rawTransaction.Some? && tx.rawTransaction.value.meta.Some? && tx.rawTransaction.value.meta.value.fee.Some?
  }

  /** `tx.raw_transaction?.meta?.fee ?? 0`: a missing fee counts as zero. */
  function Fee(tx: Transaction): (fee: int)
    ensures HasFee(tx) ==> fee == tx.rawTransaction.value.meta.value.fee.value
    ensures !HasFee(tx) ==> fee == 0
  {
    match tx.rawTransaction
    case Some(RawTransaction(Some(Meta(Some(f))))) => f
    case _ => 0
  }

  predicate OnDayPred(day: int, tx: Transaction) {
    DayKey(tx) == day
  }

  /** The transactions of `txs` whose day key is `day`, in input order. */
  function OnDay(txs: seq<Transaction>, day: int): seq<Transaction> {
    Filter(txs, tx => OnDayPred(day, tx))
  }

  /** A transaction is listed under `day` exactly when it is in the input with that day key. */
  lemma OnDayMembers(txs: seq<Transaction>, day: int, tx: Transaction)
    ensures tx in OnDay(txs, day) <==> tx in txs && DayKey(tx) == day
  {
  }

  /** Input order is kept: the day list of a concatenation is the concatenation of the day lists. */
  lemma OnDayConcat(a: seq<Transaction>, b: seq<Transaction>, day: int)
    ensures OnDay(a + b, day) == OnDay(a, day) + OnDay(b, day)
  {
    FilterConcat(a, b, tx => OnDayPred(day, tx));
  }

  /** A day with no transaction of the input has an empty list. */
  lemma OnDayNone(txs: seq<Transaction>, day: int)
    requires forall i :: 0 <= i < |txs| ==> DayKey(txs[i]) != day
    ensures OnDay(txs, day) == []
  {
    FilterNone(txs, tx => OnDayPred(day, tx));
  }

  /** When every transaction of the input falls on `day`, its list is the whole input. */
  lemma OnDayAll(txs: seq<Transaction>, day: int)
    requires forall i :: 0 <= i < |txs| ==> DayKey(txs[i]) == day
    ensures OnDay(txs, day) == txs
  {
    FilterAll(txs, tx => OnDayPred(day, tx));
  }

  /** The two extreme day lists: empty when no transaction falls on `day`, everything when all do. */
  lemma OnDayExtremes(txs: seq<Transaction>, day: int)
    ensures (forall i :: 0 <= i < |txs| ==> DayKey(txs[i]) != day) ==> OnDay(txs, day) == []
    ensures (forall i :: 0 <= i < |txs| ==> DayKey(txs[i]) == day) ==> OnDay(txs, day) == txs
  {
    if forall i :: 0 <= i < |txs| ==> DayKey(txs[i]) != day {
      OnDayNone(txs, day);
    }
    if forall i :: 0 <= i < |txs| ==> DayKey(txs[i]) == day {
      OnDayAll(txs, day);
    }
  }

  /** Two transactions of the same day are listed together, in their input order. */
  lemma SameDayPair(t1: Transaction, t2: Transaction)
    requires DayKey(t1) == DayKey(t2)
    ensures OnDay([t1, t2], DayKey(t1)) == [t1, t2]
  {
    OnDayAll([t1, t2], DayKey(t1));
  }
}
