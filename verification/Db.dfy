/**
 * The local data store: the account and task records, the two-valued task
 * status, and the one-time seeding of the accounts collection.
 *
 * The accounts collection is a map from primary key to record. The tasks
 * collection is a sequence of records in primary-key order, which is the
 * order in which an equality lookup on one of its indexes returns them.
 */
module Db {
  import opened Wrappers
  import opened Strings

  /** The lifecycle of a task: exactly these two values. */
  datatype TaskStatus = Active | Done

  /** An account owning a fixed pool of numbered builders. */
  datatype Account = Account(id: string, name: string, builders: int)

  /**
   * A task occupying one builder of one account. `startAt` and `endAt` are
   * instants in milliseconds since the epoch, standing for the stored
   * ISO-8601 strings read back through `new Date(..).getTime()`.
   */
  datatype Task = Task(
    id: string,
    accountId: string,
    builderNo: int,
    title: string,
    startAt: int,
    endAt: int,
    status: TaskStatus)

  /** The stored spelling of a status: a non-empty lower-case word. */
  function StatusName(s: TaskStatus): (r: string)
    ensures |r| > 0
    ensures forall i :: 0 <= i < |r| ==> 'a' <= r[i] <= 'z'
  {
    match s
    case Active => "active"
    case Done => "done"
  }

  /**
   * Reads a stored status string: only the two spellings of the status type
   * are statuses, and each reads back as the status it spells.
   */
  function ParseStatus(s: string): (r: Option<TaskStatus>)
    ensures r.Some? ==> StatusName(r.value) == s
    ensures r.None? <==> forall st: TaskStatus :: StatusName(st) != s
    ensures forall st: TaskStatus :: StatusName(st) == s ==> r == Some(st)
  {
    if s == "active" then Some(Active)
    else if s == "done" then Some(Done)
    else None
  }

  /** The tasks collection is strictly ascending in its primary key. */
  ghost predicate KeyOrdered(table: seq<Task>)
  {
    forall i, j :: 0 <= i < j < |table| ==> KeyLess(table[i].id, table[j].id)
  }

  /** The number of accounts the seed creates. */
  const SeedCount: nat := 15

  /** The builder pool size of every seeded account. */
  const SeedBuilders: int := 5

  /** Every seeded id starts with this. */
  const IdPrefix: string := "acc-"

  /** Every seeded display name starts with this (the three characters U+00E5 U+017E U+00A2). */
  const NamePrefix: string := "\U{00E5}\U{017E}\U{00A2}"

  /**
   * The id of the `i`-th seeded account: `acc-` and `i + 1` padded to two
   * digits with zeros. The part after the prefix is at least two digits and
   * reads back as `i + 1`.
   */
  function AccountId(i: nat): (r: string)
    ensures |r| >= |IdPrefix| + 2
    ensures r[..|IdPrefix|] == IdPrefix
    ensures AllDigits(r[|IdPrefix|..])
    ensures ParseDecimal(r[|IdPrefix|..]) == i + 1
  {
    var digits := DecimalString(i + 1);
    var padded := PadStart(digits, 2, '0');
    DecimalRoundTrip(i + 1);
    PaddedDecimal(digits, padded);
    assert (IdPrefix + padded)[|IdPrefix|..] == padded;
    IdPrefix + padded
  }

  /**
   * The display name of the `i`-th seeded account: the name prefix followed
   * by the decimal digits of `i + 1`.
   */
  function SeedName(i: nat): (r: string)
    ensures |r| > |NamePrefix|
    ensures r[..|NamePrefix|] == NamePrefix
    ensures AllDigits(r[|NamePrefix|..])
    ensures ParseDecimal(r[|NamePrefix|..]) == i + 1
  {
    DecimalRoundTrip(i + 1);
    assert (NamePrefix + DecimalString(i + 1))[|NamePrefix|..] == DecimalString(i + 1);
    NamePrefix + DecimalString(i + 1)
  }

  /**
   * For the first 99 indices the id has the fixed shape `acc-DD`, where the
   * two digits are the tens and the units of `i + 1`.
   */
  lemma AccountIdFormat(i: nat)
    requires i < 99
    ensures |AccountId(i)| == 6
    ensures AccountId(i)[..4] == IdPrefix
    ensures AccountId(i)[4] == DigitChar((i + 1) / 10)
    ensures AccountId(i)[5] == DigitChar((i + 1) % 10)
  {
    var n := i + 1;
    var d := DecimalString(n);
    if n >= 10 {
      assert DecimalString(n / 10) == [DigitChar(n / 10)];
      assert d == [DigitChar(n / 10), DigitChar(n % 10)];
    }
  }

  /** Different indices give different ids. */
  lemma AccountIdInjective(i: nat, j: nat)
    ensures i != j ==> AccountId(i) != AccountId(j)
  {
    var a, b := AccountId(i), AccountId(j);
    if a == b {
      assert a[|IdPrefix|..] == b[|IdPrefix|..];
    }
  }

  /**
   * The accounts the seed inserts, record `i` being the `i`-th seed account:
   * fifteen records whose ids are pairwise distinct and together exactly the
   * seed ids, each with the seed's positive builder count.
   */
  function SeedBatch(): (b: seq<Account>)
    ensures |b| == SeedCount
    ensures DistinctIds(b)
    ensures IdsOf(b) == SeedIds()
    ensures forall a :: a in b ==> a.builders == SeedBuilders > 0
  {
    var b := seq(SeedCount, i requires 0 <= i => Account(AccountId(i), SeedName(i), SeedBuilders));
    SeedRecordsDistinct(b);
    b
  }

  /** The set of ids the seed inserts. */
  ghost function SeedIds(): set<string>
  {
    set i | 0 <= i < SeedCount :: AccountId(i)
  }

  /** True iff no two records of `batch` share an id. */
  ghost predicate DistinctIds(batch: seq<Account>)
  {
    forall i, j :: 0 <= i < j < |batch| ==> batch[i].id != batch[j].id
  }

  /** The ids of the records of `batch`. */
  ghost function IdsOf(batch: seq<Account>): set<string>
  {
    set a | a in batch :: a.id
  }

  /** Fifteen records carrying the seed ids in index order have pairwise distinct ids, together the seed ids. */
  lemma SeedRecordsDistinct(b: seq<Account>)
    requires |b| == SeedCount
    requires forall i :: 0 <= i < |b| ==> b[i].id == AccountId(i)
    ensures DistinctIds(b)
    ensures IdsOf(b) == SeedIds()
  {
    forall i, j | 0 <= i < j < |b|
      ensures b[i].id != b[j].id
    {
      AccountIdInjective(i, j);
    }
    forall k | k in SeedIds()
      ensures k in IdsOf(b)
    {
      var i :| 0 <= i < SeedCount && k == AccountId(i);
      assert b[i].id == k;
    }
  }

  /**
   * `bulkAdd` on the accounts collection, all or nothing: when some record's
   * id is already stored or repeated in the batch the insertion fails with
   * that id and nothing is written; otherwise every record is inserted under
   * its id and the stored records are kept.
   */
  function BulkAdd(store: map<string, Account>, batch: seq<Account>): (r: Result<map<string, Account>, string>)
    ensures r.Success? <==> DistinctIds(batch) && IdsOf(batch) !! store.Keys
    ensures r.Failure? ==> r.error in IdsOf(batch)
    ensures r.Success? ==> r.value.Keys == store.Keys + IdsOf(batch)
    ensures r.Success? ==> forall k :: k in store ==> r.value[k] == store[k]
    ensures r.Success? ==> forall i :: 0 <= i < |batch| ==> r.value[batch[i].id] == batch[i]
    decreases |batch|
  {
    if |batch| == 0 then Success(store)
    else
      var a := batch[0];
      if a.id in store then Failure(a.id)
      else
        BulkAddStep(store, batch);
        BulkAdd(store[a.id := a], batch[1..])
  }

  /** How the distinctness and disjointness of a batch split at its first record. */
  lemma BulkAddStep(store: map<string, Account>, batch: seq<Account>)
    requires |batch| > 0 && batch[0].id !in store
    ensures IdsOf(batch) == {batch[0].id} + IdsOf(batch[1..])
    ensures (DistinctIds(batch) && IdsOf(batch) !! store.Keys) <==>
            (DistinctIds(batch[1..]) && IdsOf(batch[1..]) !! store[batch[0].id := batch[0]].Keys)
  {
    assert batch == [batch[0]] + batch[1..];
    var tail := batch[1..];
    if DistinctIds(batch) {
      forall a | a in tail
        ensures a.id != batch[0].id
      {
        var j :| 0 <= j < |tail| && tail[j] == a;
        assert batch[j + 1] == a;
      }
    }
    if DistinctIds(tail) && IdsOf(tail) !! store[batch[0].id := batch[0]].Keys {
      forall i, j | 0 <= i < j < |batch|
        ensures batch[i].id != batch[j].id
      {
        if i > 0 {
          assert batch[i] == tail[i - 1] && batch[j] == tail[j - 1];
        } else {
          assert batch[j] in tail;
        }
      }
    }
  }

  /** A batch with distinct ids has as many ids as records. */
  lemma {:induction false} DistinctIdsCount(batch: seq<Account>)
    requires DistinctIds(batch)
    ensures |IdsOf(batch)| == |batch|
    decreases |batch|
  {
    if |batch| > 0 {
      var tail := batch[1..];
      assert DistinctIds(tail) by {
        forall i, j | 0 <= i < j < |tail|
          ensures tail[i].id != tail[j].id
        {
          assert tail[i] == batch[i + 1] && tail[j] == batch[j + 1];
        }
      }
      DistinctIdsCount(tail);
      var x := batch[0].id;
      forall a | a in tail
        ensures a.id != x
      {
        var j :| 0 <= j < |tail| && tail[j] == a;
        assert batch[j + 1] == a;
      }
      IdsOfCons(batch);
      assert x !in IdsOf(tail);
      assert |IdsOf(tail) + {x}| == |IdsOf(tail)| + 1;
    }
  }

  /** The ids of a non-empty batch are the first id and the ids of the rest. */
  lemma IdsOfCons(batch: seq<Account>)
    requires |batch| > 0
    ensures IdsOf(batch) == IdsOf(batch[1..]) + {batch[0].id}
  {
    assert batch == [batch[0]] + batch[1..];
  }

  /**
   * Inserting the seed batch into an empty collection succeeds and leaves
   * exactly the fifteen seed ids.
   */
  lemma SeedInsert(store: map<string, Account>)
    requires |store| == 0
    ensures BulkAdd(store, SeedBatch()).Success?
    ensures BulkAdd(store, SeedBatch()).value.Keys == SeedIds()
    ensures |BulkAdd(store, SeedBatch()).value| == SeedCount
  {
    BulkAddIntoEmpty(store, SeedBatch());
  }

  /** A batch with distinct ids inserted into an empty collection adds one account per record. */
  lemma BulkAddIntoEmpty(store: map<string, Account>, batch: seq<Account>)
    requires |store| == 0
    requires DistinctIds(batch)
    ensures BulkAdd(store, batch).Success?
    ensures BulkAdd(store, batch).value.Keys == IdsOf(batch)
    ensures |BulkAdd(store, batch).value| == |batch|
  {
    DistinctIdsCount(batch);
    assert store.Keys == {};
    var m := BulkAdd(store, batch).value;
    assert |m| == |m.Keys|;
  }

  /** After the seed insert into an empty collection, each seed id holds its seed account. */
  lemma SeedInsertRecords(store: map<string, Account>)
    requires |store| == 0
    ensures BulkAdd(store, SeedBatch()).Success?
    ensures forall i :: 0 <= i < SeedCount ==>
              BulkAdd(store, SeedBatch()).value[AccountId(i)] == Account(AccountId(i), SeedName(i), SeedBuilders)
  {
    var b := SeedBatch();
    SeedBatchRecords();
    assert store.Keys == {};
    var m := BulkAdd(store, b).value;
    forall i | 0 <= i < SeedCount
      ensures m[AccountId(i)] == Account(AccountId(i), SeedName(i), SeedBuilders)
    {
      assert b[i] == Account(AccountId(i), SeedName(i), SeedBuilders);
    }
  }

  /** Record `i` of the seed batch is the `i`-th seed account. */
  lemma SeedBatchRecords()
    ensures forall i :: 0 <= i < SeedCount ==> SeedBatch()[i] == Account(AccountId(i), SeedName(i), SeedBuilders)
  {
  }

  /**
   * `seedAccounts`: a non-empty accounts collection is left as it is; an
   * empty one receives the fifteen seed accounts `acc-01` .. `acc-15`, each
   * with five builders.
   */
  function SeedAccounts(store: map<string, Account>): (r: map<string, Account>)
    ensures |store| > 0 ==> r == store
    ensures |store| == 0 ==> r.Keys == SeedIds() && |r| == SeedCount
    ensures |store| == 0 ==>
              forall i :: 0 <= i < SeedCount ==> r[AccountId(i)] == Account(AccountId(i), SeedName(i), SeedBuilders)
    ensures forall k :: k in r && k !in store ==> r[k].builders == SeedBuilders > 0
  {
    if |store| > 0 then store
    else
      SeedInsert(store);
      SeedInsertRecords(store);
      BulkAdd(store, SeedBatch()).value
  }

  /** Seeding twice leaves the same fifteen accounts as seeding once. */
  lemma SeedIdempotent(store: map<string, Account>)
    ensures SeedAccounts(SeedAccounts(store)) == SeedAccounts(store)
    ensures |SeedAccounts(SeedAccounts(map[]))| == SeedCount
  {
  }
}
