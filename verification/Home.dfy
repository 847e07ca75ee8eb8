/**
 * The dashboard's derivations: the active tasks read from the task table, and
 * for every account the active task that completes first.
 */
module Home {
  import opened Strings
  import opened Db

  /**
   * The active tasks of the table, in table order: a task is kept exactly
   * when it is active, and a table in primary-key order stays in that order.
   */
  function ActiveTasks(table: seq<Task>): (r: seq<Task>)
    ensures forall t :: t in r <==> t in table && t.status == Active
    ensures |r| <= |table|
    ensures KeyOrdered(table) ==> KeyOrdered(r)
    decreases |table|
  {
    if |table| == 0 then []
    else
      var rest := ActiveTasks(table[1..]);
      ActiveStep(table, rest);
      if table[0].status == Active then [table[0]] + rest else rest
  }

  /** Every task of `rest`, drawn from the table's tail, follows the table's first task in key order. */
  lemma ActiveStep(table: seq<Task>, rest: seq<Task>)
    requires |table| > 0
    requires forall t :: t in rest ==> t in table[1..]
    requires KeyOrdered(table) ==> KeyOrdered(rest)
    ensures KeyOrdered(table) ==> KeyOrdered([table[0]] + rest)
  {
    if KeyOrdered(table) {
      var r := [table[0]] + rest;
      forall i, j | 0 <= i < j < |r|
        ensures KeyLess(r[i].id, r[j].id)
      {
        if i == 0 {
          assert r[j] == rest[j - 1];
          assert r[j] in table[1..];
          var k :| 0 <= k < |table[1..]| && table[1..][k] == r[j];
          assert table[k + 1] == r[j];
        } else {
          assert r[i] == rest[i - 1] && r[j] == rest[j - 1];
        }
      }
    }
  }

  /** The accounts some task of `tasks` belongs to. */
  ghost function AccountIds(tasks: seq<Task>): set<string>
  {
    set t | t in tasks :: t.accountId
  }

  /**
   * One step of the fold: `t` takes its account's entry when the entry is
   * missing or ends strictly later. Afterwards the account has an entry that
   * ends no later than `t`, every other entry is untouched, and an entry
   * ending no later than `t` is kept.
   */
  function Step(m: map<string, Task>, t: Task): (r: map<string, Task>)
    ensures r.Keys == m.Keys + {t.accountId}
    ensures r[t.accountId] == t || (t.accountId in m && r[t.accountId] == m[t.accountId])
    ensures r[t.accountId].endAt <= t.endAt
    ensures forall k :: k in m && k != t.accountId ==> r[k] == m[k]
    ensures t.accountId in m && m[t.accountId].endAt <= t.endAt ==> r == m
  {
    if t.accountId !in m || t.endAt < m[t.accountId].endAt then m[t.accountId := t] else m
  }

  /** A step on a summary of `prefix` gives a summary of `prefix + [t]`. */
  lemma StepExtends(prefix: seq<Task>, t: Task, m: map<string, Task>)
    requires m.Keys == AccountIds(prefix)
    requires forall k :: k in m ==> m[k] in prefix && m[k].accountId == k
    requires forall i :: 0 <= i < |prefix| ==> m[prefix[i].accountId].endAt <= prefix[i].endAt
    ensures var r, tasks := Step(m, t), prefix + [t];
            && r.Keys == AccountIds(tasks)
            && (forall k :: k in r ==> r[k] in tasks && r[k].accountId == k)
            && (forall i :: 0 <= i < |tasks| ==> r[tasks[i].accountId].endAt <= tasks[i].endAt)
  {
    var r, tasks := Step(m, t), prefix + [t];
    assert AccountIds(tasks) == AccountIds(prefix) + {t.accountId};
    forall k | k in r
      ensures r[k] in tasks && r[k].accountId == k
    {
      if k != t.accountId {
        assert r[k] == m[k];
      }
    }
    forall i | 0 <= i < |tasks|
      ensures r[tasks[i].accountId].endAt <= tasks[i].endAt
    {
      if i < |prefix| {
        assert tasks[i] == prefix[i];
        var k := prefix[i].accountId;
        if k != t.accountId {
          assert r[k] == m[k];
        }
      }
    }
  }

  /**
   * `nextByAccount`: the left fold of `Step` over `tasks`, starting from the
   * empty map. Its keys are exactly the accounts met, each mapped to one of
   * that account's tasks, and no task of the account ends before it.
   */
  function NextByAccount(tasks: seq<Task>): (r: map<string, Task>)
    ensures r.Keys == AccountIds(tasks)
    ensures forall k :: k in r ==> r[k] in tasks && r[k].accountId == k
    ensures forall i :: 0 <= i < |tasks| ==> r[tasks[i].accountId].endAt <= tasks[i].endAt
    decreases |tasks|
  {
    if |tasks| == 0 then map[]
    else
      var n := |tasks| - 1;
      var prefix, t := tasks[..n], tasks[n];
      assert tasks == prefix + [t];
      StepExtends(prefix, t, NextByAccount(prefix));
      Step(NextByAccount(prefix), t)
  }

  /**
   * `w` is the first position of `tasks` holding a task of account `k` with
   * the least end time among that account's tasks: every task of `k` ends no
   * earlier, and every earlier task of `k` ends strictly later.
   */
  ghost predicate IsFirstMinimum(tasks: seq<Task>, k: string, w: int)
  {
    && 0 <= w < |tasks|
    && tasks[w].accountId == k
    && (forall j :: 0 <= j < |tasks| && tasks[j].accountId == k ==> tasks[w].endAt <= tasks[j].endAt)
    && (forall j :: 0 <= j < w && tasks[j].accountId == k ==> tasks[w].endAt < tasks[j].endAt)
  }

  /**
   * The stable tie-break: the task chosen for an account is the first of its
   * tasks, in input order, among those ending soonest; and any position with
   * that property holds the chosen task.
   */
  lemma {:induction false} NextIsFirstMinimum(tasks: seq<Task>, k: string)
    requires k in AccountIds(tasks)
    ensures k in NextByAccount(tasks)
    ensures exists w :: IsFirstMinimum(tasks, k, w) && NextByAccount(tasks)[k] == tasks[w]
    ensures forall w :: IsFirstMinimum(tasks, k, w) ==> NextByAccount(tasks)[k] == tasks[w]
    decreases |tasks|
  {
    var w := FirstMinimumWitness(tasks, k);
    forall w' | IsFirstMinimum(tasks, k, w')
      ensures NextByAccount(tasks)[k] == tasks[w']
    {
      FirstMinimumUnique(tasks, k, w, w');
    }
  }

  /** At most one position is the first minimum of an account. */
  lemma FirstMinimumUnique(tasks: seq<Task>, k: string, w: int, w': int)
    requires IsFirstMinimum(tasks, k, w) && IsFirstMinimum(tasks, k, w')
    ensures w == w'
  {
  }

  /** The position of the task the fold chooses for `k`, which is the first minimum. */
  lemma {:induction false} FirstMinimumWitness(tasks: seq<Task>, k: string) returns (w: int)
    requires k in AccountIds(tasks)
    ensures IsFirstMinimum(tasks, k, w) && NextByAccount(tasks)[k] == tasks[w]
    decreases |tasks|
  {
    var n := |tasks| - 1;
    var prefix, t := tasks[..n], tasks[n];
    assert tasks == prefix + [t];
    NextOfAppend(prefix, t);
    var m := NextByAccount(prefix);
    if k == t.accountId && (k !in m || t.endAt < m[k].endAt) {
      w := n;
      NewMinimumAtEnd(prefix, t);
    } else {
      assert k in m;
      w := FirstMinimumWitness(prefix, k);
      OldMinimumKept(prefix, t, k, w);
    }
  }

  /** The fold over `prefix + [t]` is one more step after the fold over `prefix`. */
  lemma NextOfAppend(prefix: seq<Task>, t: Task)
    ensures NextByAccount(prefix + [t]) == Step(NextByAccount(prefix), t)
  {
    assert (prefix + [t])[..|prefix|] == prefix;
  }

  /** When the last task replaces its account's entry, it is the first minimum. */
  lemma NewMinimumAtEnd(prefix: seq<Task>, t: Task)
    requires var m := NextByAccount(prefix);
             t.accountId !in m || t.endAt < m[t.accountId].endAt
    ensures IsFirstMinimum(prefix + [t], t.accountId, |prefix|)
  {
    var tasks := prefix + [t];
    var k := t.accountId;
    var m := NextByAccount(prefix);
    forall j | 0 <= j < |prefix| && prefix[j].accountId == k
      ensures t.endAt < prefix[j].endAt
    {
      assert prefix[j] in prefix;
    }
    forall j | 0 <= j < |tasks| && tasks[j].accountId == k
      ensures t.endAt <= tasks[j].endAt
    {
      if j < |prefix| {
        assert tasks[j] == prefix[j];
      }
    }
    forall j | 0 <= j < |prefix| && tasks[j].accountId == k
      ensures t.endAt < tasks[j].endAt
    {
      assert tasks[j] == prefix[j];
    }
  }

  /** A first minimum of the prefix that the last task does not undercut stays the first minimum. */
  lemma OldMinimumKept(prefix: seq<Task>, t: Task, k: string, w: int)
    requires IsFirstMinimum(prefix, k, w)
    requires t.accountId == k ==> prefix[w].endAt <= t.endAt
    ensures IsFirstMinimum(prefix + [t], k, w)
  {
    var tasks := prefix + [t];
    assert tasks[w] == prefix[w];
    forall j | 0 <= j < |tasks| && tasks[j].accountId == k
      ensures tasks[w].endAt <= tasks[j].endAt
    {
      if j < |prefix| {
        assert tasks[j] == prefix[j];
      }
    }
    forall j | 0 <= j < w && tasks[j].accountId == k
      ensures tasks[w].endAt < tasks[j].endAt
    {
      assert tasks[j] == prefix[j];
    }
  }

  /**
   * Appending a task changes at most its own account's entry, and a task
   * that does not end strictly before the current entry changes nothing.
   */
  lemma NextAppend(tasks: seq<Task>, t: Task)
    ensures forall k :: k != t.accountId ==>
              (k in NextByAccount(tasks + [t]) <==> k in NextByAccount(tasks))
    ensures forall k :: k != t.accountId && k in NextByAccount(tasks) ==>
              NextByAccount(tasks + [t])[k] == NextByAccount(tasks)[k]
    ensures t.accountId in NextByAccount(tasks) && NextByAccount(tasks)[t.accountId].endAt <= t.endAt ==>
              NextByAccount(tasks + [t]) == NextByAccount(tasks)
  {
    NextOfAppend(tasks, t);
  }

  /**
   * What the dashboard shows: for every account, the next-completing task
   * among the active tasks of the table. Every shown task is an active task
   * of the table.
   */
  function NextCompletions(table: seq<Task>): (r: map<string, Task>)
    ensures forall k :: k in r ==> r[k] in table && r[k].status == Active && r[k].accountId == k
    ensures forall t :: t in table && t.status == Active ==> t.accountId in r && r[t.accountId].endAt <= t.endAt
  {
    var active := ActiveTasks(table);
    var r := NextByAccount(active);
    assert forall t :: t in active ==> r[t.accountId].endAt <= t.endAt by {
      forall t | t in active
        ensures r[t.accountId].endAt <= t.endAt
      {
        var i :| 0 <= i < |active| && active[i] == t;
      }
    }
    r
  }

  /**
   * Because the table is read in primary-key order, a tie on the end time is
   * broken towards the smallest task id: any other active task of the same
   * account ending at the same instant has a larger id.
   */
  lemma TieBreakByKey(table: seq<Task>, t: Task)
    requires KeyOrdered(table)
    requires t in table && t.status == Active
    requires NextCompletions(table)[t.accountId].endAt == t.endAt
    ensures NextCompletions(table)[t.accountId] == t || KeyLess(NextCompletions(table)[t.accountId].id, t.id)
  {
    var active := ActiveTasks(table);
    var k := t.accountId;
    var w := FirstMinimumWitness(active, k);
    var i :| 0 <= i < |active| && active[i] == t;
    if i < w {
      assert active[w].endAt < active[i].endAt;
    }
  }
}
