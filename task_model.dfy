/**
 * The task record and the pure functions over the ordered task list that the
 * store's operations are specified by: text checking, lookup of the first
 * task with an id, filtering, acting on one task, and the next free id.
 */
module TaskModel {
  import opened Wrappers
  import opened JsValues
  import Utils

  /** One to-do item. `createdAt` is the creation timestamp, taken as given. */
  datatype Task = Task(id: int, text: string, completed: bool, dueDate: Option<string>, createdAt: string)

  /** The two ways `addTask` and `editTask` can throw. */
  datatype TaskError =
    | EmptyText          // Error('Task text cannot be empty')
    | TrimNotAFunction   // TypeError: a truthy non-string has no `trim`

  /**
   * The guard `if (!text || text.trim() === '') throw ...` followed by
   * `text.trim()`: it succeeds exactly when `Utils.validateTaskText` accepts
   * the text, and then yields the trimmed text.
   */
  function CheckText(text: JsValue): (r: Result<string, TaskError>)
    ensures r.Ok? <==> Utils.ValidateTaskText(text)
    ensures r.Ok? ==> text.Str? && r.value == Trim(text.s) && r.value != []
    ensures r.Err? ==> (r.error == TrimNotAFunction <==> Truthy(text) && !text.Str?)
  {
    if !Truthy(text) then Err(EmptyText)
    else if !text.Str? then Err(TrimNotAFunction)
    else if Trim(text.s) == "" then Err(EmptyText)
    else Ok(Trim(text.s))
  }

  /** `dueDate || null`: a missing or empty due date is stored as null. */
  function StoredDueDate(dueDate: Option<string>): (r: Option<string>)
    ensures r.None? <==> dueDate.None? || dueDate.value == ""
    ensures r.Some? ==> r == dueDate
  {
    if dueDate.Some? && dueDate.value != "" then dueDate else None
  }

  /** The ids present in a list. */
  function Ids(s: seq<Task>): set<int> {
    set t | t in s :: t.id
  }

  /** Every id is below `counter`. */
  ghost predicate IdsBelow(s: seq<Task>, counter: int) {
    forall i :: 0 <= i < |s| ==> s[i].id < counter
  }

  /** No two tasks share an id. */
  ghost predicate DistinctIds(s: seq<Task>) {
    forall i, j :: 0 <= i < j < |s| ==> s[i].id != s[j].id
  }

  /** Every text is non-empty and already trimmed. */
  ghost predicate TextsTrimmed(s: seq<Task>) {
    forall i :: 0 <= i < |s| ==> s[i].text != [] && Trim(s[i].text) == s[i].text
  }

  lemma IdsCons(s: seq<Task>)
    requires s != []
    ensures Ids(s) == {s[0].id} + Ids(s[1..])
  {
    assert forall t :: t in s <==> t == s[0] || t in s[1..];
  }

  /** Distinctness, one head at a time. */
  lemma DistinctIdsCons(s: seq<Task>)
    requires s != []
    ensures DistinctIds(s) <==> s[0].id !in Ids(s[1..]) && DistinctIds(s[1..])
  {
    if DistinctIds(s) {
      forall t | t in s[1..] ensures t.id != s[0].id {
        var k :| 0 <= k < |s[1..]| && s[1..][k] == t;
        assert s[k + 1] == t;
      }
    }
    if s[0].id !in Ids(s[1..]) && DistinctIds(s[1..]) {
      forall i, j | 0 <= i < j < |s| ensures s[i].id != s[j].id {
        if i == 0 {
          assert s[j] == s[1..][j - 1];
        } else {
          assert s[i] == s[1..][i - 1] && s[j] == s[1..][j - 1];
        }
      }
    }
  }

  /** `tasks.find(t => t.id === id)`, as the index of the FIRST task with that id. */
  function FindIndex(s: seq<Task>, id: int): (r: Option<nat>)
    ensures r.None? <==> id !in Ids(s)
    ensures r.Some? ==> r.value < |s| && s[r.value].id == id
    ensures r.Some? ==> forall j :: 0 <= j < r.value ==> s[j].id != id
  {
    if s == [] then None
    else if s[0].id == id then Some(0)
    else
      IdsCons(s);
      match FindIndex(s[1..], id)
      case None => None
      case Some(k) => Some(k + 1)
  }

  /** Lookup by id only sees the ids, position by position. */
  lemma {:induction false} FindIndexSeesOnlyIds(s: seq<Task>, s': seq<Task>, id: int)
    requires |s| == |s'|
    requires forall i :: 0 <= i < |s| ==> s[i].id == s'[i].id
    ensures FindIndex(s, id) == FindIndex(s', id)
  {
    if s != [] && s[0].id != id {
      FindIndexSeesOnlyIds(s[1..], s'[1..], id);
    }
  }

  /** The three callbacks the source passes to `filter`. */
  datatype Criterion = HasId(id: int) | IsCompleted | Not(c: Criterion)

  predicate Keeps(c: Criterion, t: Task) {
    match c
    case HasId(id) => t.id == id
    case IsCompleted => t.completed
    case Not(d) => !Keeps(d, t)
  }

  /** `Array.prototype.filter`: the tasks meeting `c`, every one of them, in list order. */
  function Filter(s: seq<Task>, c: Criterion): (r: seq<Task>)
    ensures |r| <= |s|
    ensures forall i :: 0 <= i < |r| ==> Keeps(c, r[i]) && r[i] in s
    ensures forall i :: 0 <= i < |s| && Keeps(c, s[i]) ==> s[i] in r
  {
    if s == [] then []
    else if Keeps(c, s[0]) then [s[0]] + Filter(s[1..], c)
    else Filter(s[1..], c)
  }

  /**
   * `s` is `a` and `b` merged without reordering either: both are
   * order-preserving subsequences of `s`, and every element of `s` is used
   * by exactly one of them.
   */
  ghost predicate Interleaving(s: seq<Task>, a: seq<Task>, b: seq<Task>)
    decreases |s|
  {
    if s == [] then a == [] && b == []
    else
      || (a != [] && a[0] == s[0] && Interleaving(s[1..], a[1..], b))
      || (b != [] && b[0] == s[0] && Interleaving(s[1..], a, b[1..]))
  }

  /** A filter and its negation split the list into two interleaved parts. */
  lemma {:induction false} FilterPartition(s: seq<Task>, c: Criterion)
    ensures Interleaving(s, Filter(s, c), Filter(s, Not(c)))
    ensures Interleaving(s, Filter(s, Not(c)), Filter(s, c))
  {
    if s != [] {
      FilterPartition(s[1..], c);
      if Keeps(c, s[0]) {
        assert ([s[0]] + Filter(s[1..], c))[1..] == Filter(s[1..], c);
      } else {
        assert ([s[0]] + Filter(s[1..], Not(c)))[1..] == Filter(s[1..], Not(c));
      }
    }
  }

  /** What an interleaving preserves: lengths and multiplicities. */
  lemma {:induction false} InterleavingSplits(s: seq<Task>, a: seq<Task>, b: seq<Task>)
    requires Interleaving(s, a, b)
    ensures |s| == |a| + |b|
    ensures multiset(s) == multiset(a) + multiset(b)
  {
    if s != [] {
      assert s == [s[0]] + s[1..];
      if a != [] && a[0] == s[0] && Interleaving(s[1..], a[1..], b) {
        InterleavingSplits(s[1..], a[1..], b);
        assert a == [a[0]] + a[1..];
      } else {
        InterleavingSplits(s[1..], a, b[1..]);
        assert b == [b[0]] + b[1..];
      }
    }
  }

  /** Lists whose elements split as multisets have ids that split the same way. */
  lemma IdsSplit(s: seq<Task>, a: seq<Task>, b: seq<Task>)
    requires multiset(s) == multiset(a) + multiset(b)
    ensures Ids(s) == Ids(a) + Ids(b)
  {
    assert forall t :: t in s <==> t in multiset(s);
    assert forall t :: t in a <==> t in multiset(a);
    assert forall t :: t in b <==> t in multiset(b);
  }

  /** Splitting a list with distinct ids gives parts with distinct, disjoint ids. */
  lemma {:induction false} InterleavingKeepsDistinct(s: seq<Task>, a: seq<Task>, b: seq<Task>)
    requires Interleaving(s, a, b) && DistinctIds(s)
    ensures DistinctIds(a) && DistinctIds(b) && Ids(a) !! Ids(b)
  {
    if s != [] {
      DistinctIdsCons(s);
      if a != [] && a[0] == s[0] && Interleaving(s[1..], a[1..], b) {
        InterleavingKeepsDistinct(s[1..], a[1..], b);
        InterleavingSplits(s[1..], a[1..], b);
        IdsSplit(s[1..], a[1..], b);
        DistinctIdsCons(a);
        IdsCons(a);
      } else {
        InterleavingKeepsDistinct(s[1..], a, b[1..]);
        InterleavingSplits(s[1..], a, b[1..]);
        IdsSplit(s[1..], a, b[1..]);
        DistinctIdsCons(b);
        IdsCons(b);
      }
    }
  }

  /**
   * `tasks.filter(t => t.id !== id)`: no task with `id` is left, the list got
   * shorter exactly when `id` was present, every other task stays, and the
   * removed tasks and the kept ones interleave to the old list.
   */
  lemma DeleteById(s: seq<Task>, id: int)
    ensures id !in Ids(Filter(s, Not(HasId(id))))
    ensures Ids(Filter(s, Not(HasId(id)))) == Ids(s) - {id}
    ensures |Filter(s, Not(HasId(id)))| < |s| <==> id in Ids(s)
    ensures Interleaving(s, Filter(s, Not(HasId(id))), Filter(s, HasId(id)))
  {
    var kept, gone := Filter(s, Not(HasId(id))), Filter(s, HasId(id));
    FilterPartition(s, HasId(id));
    InterleavingSplits(s, kept, gone);
    IdsSplit(s, kept, gone);
    assert Ids(gone) <= {id};
    if id in Ids(s) {
      var t :| t in s && t.id == id;
      assert t in gone;
    }
  }

  /** Deleting an id that is no longer present changes nothing. */
  lemma {:induction false} DeleteAbsent(s: seq<Task>, id: int)
    requires id !in Ids(s)
    ensures Filter(s, Not(HasId(id))) == s
  {
    if s != [] {
      IdsCons(s);
      assert Keeps(Not(HasId(id)), s[0]);
      DeleteAbsent(s[1..], id);
      assert s == [s[0]] + s[1..];
    }
  }

  /** Filtering keeps ids below `counter`, and keeps ids distinct, each on its own. */
  lemma FilterKeepsWellFormed(s: seq<Task>, c: Criterion, counter: int)
    ensures IdsBelow(s, counter) ==> IdsBelow(Filter(s, c), counter)
    ensures DistinctIds(s) ==> DistinctIds(Filter(s, c))
  {
    if DistinctIds(s) {
      FilterPartition(s, c);
      InterleavingKeepsDistinct(s, Filter(s, c), Filter(s, Not(c)));
    }
  }

  /** Filtering keeps every text as it was. */
  lemma FilterKeepsTexts(s: seq<Task>, c: Criterion)
    requires TextsTrimmed(s)
    ensures TextsTrimmed(Filter(s, c))
  {
  }

  /** `getFilteredTasks(mode)`: `active`, `completed`, and everything else meaning all. */
  function Filtered(s: seq<Task>, mode: string): (r: seq<Task>)
    ensures mode == "active" ==> forall i :: 0 <= i < |r| ==> !r[i].completed
    ensures mode == "completed" ==> forall i :: 0 <= i < |r| ==> r[i].completed
    ensures mode != "active" && mode != "completed" ==> r == s
    ensures forall i :: 0 <= i < |r| ==> r[i] in s
  {
    assert forall t :: Keeps(Not(IsCompleted), t) == !t.completed;
    if mode == "active" then Filter(s, Not(IsCompleted))
    else if mode == "completed" then Filter(s, IsCompleted)
    else s
  }

  /**
   * The active and the completed view split the whole list: each keeps list
   * order, together they hold every task once, and with distinct ids the two
   * id sets are disjoint and cover the ids of the list.
   */
  lemma ViewsPartition(s: seq<Task>)
    ensures Interleaving(s, Filtered(s, "active"), Filtered(s, "completed"))
    ensures |Filtered(s, "active")| + |Filtered(s, "completed")| == |s|
    ensures multiset(Filtered(s, "active")) + multiset(Filtered(s, "completed")) == multiset(s)
    ensures Ids(Filtered(s, "active")) + Ids(Filtered(s, "completed")) == Ids(s)
    ensures DistinctIds(s) ==> Ids(Filtered(s, "active")) !! Ids(Filtered(s, "completed"))
  {
    var active, done := Filtered(s, "active"), Filtered(s, "completed");
    FilterPartition(s, IsCompleted);
    InterleavingSplits(s, active, done);
    IdsSplit(s, active, done);
    if DistinctIds(s) {
      InterleavingKeepsDistinct(s, active, done);
    }
  }

  /** What `toggleComplete` and `editTask` do to the task they find. */
  datatype Change = ToggleCompleted | ReplaceText(text: string)

  function Apply(t: Task, ch: Change): (r: Task)
    ensures r.id == t.id && r.dueDate == t.dueDate && r.createdAt == t.createdAt
    ensures ch.ToggleCompleted? ==> r.completed == !t.completed && r.text == t.text
    ensures ch.ReplaceText? ==> r.text == ch.text && r.completed == t.completed
  {
    match ch
    case ToggleCompleted => t.(completed := !t.completed)
    case ReplaceText(text) => t.(text := text)
  }

  /**
   * Apply `ch` to the first task with `id`, in place: same length, same ids at
   * every position, only that one task changed, nothing at all when `id` is
   * absent.
   */
  function UpdateFirst(s: seq<Task>, id: int, ch: Change): (r: seq<Task>)
    ensures |r| == |s|
    ensures forall i :: 0 <= i < |s| ==> r[i].id == s[i].id
    ensures FindIndex(s, id).None? ==> r == s
    ensures FindIndex(s, id).Some? ==>
              var k := FindIndex(s, id).value;
              r[k] == Apply(s[k], ch) && forall i :: 0 <= i < |s| && i != k ==> r[i] == s[i]
  {
    match FindIndex(s, id)
    case None => s
    case Some(k) => s[k := Apply(s[k], ch)]
  }

  /** Toggling the same id twice restores the list. */
  lemma ToggleTwice(s: seq<Task>, id: int)
    ensures UpdateFirst(UpdateFirst(s, id, ToggleCompleted), id, ToggleCompleted) == s
  {
    var once := UpdateFirst(s, id, ToggleCompleted);
    FindIndexSeesOnlyIds(s, once, id);
    var twice := UpdateFirst(once, id, ToggleCompleted);
    assert forall i :: 0 <= i < |s| ==> twice[i] == s[i];
  }

  /** Two edits of the same id: the second one wins. */
  lemma EditTwice(s: seq<Task>, id: int, first: string, second: string)
    ensures UpdateFirst(UpdateFirst(s, id, ReplaceText(first)), id, ReplaceText(second))
         == UpdateFirst(s, id, ReplaceText(second))
  {
    var once := UpdateFirst(s, id, ReplaceText(first));
    FindIndexSeesOnlyIds(s, once, id);
  }

  /** Acting on one task keeps ids below the counter and distinct, each on its own, and, for a trimmed new text, trimmed texts. */
  lemma UpdateKeepsWellFormed(s: seq<Task>, id: int, ch: Change, counter: int)
    ensures IdsBelow(s, counter) ==> IdsBelow(UpdateFirst(s, id, ch), counter)
    ensures DistinctIds(s) ==> DistinctIds(UpdateFirst(s, id, ch))
    ensures (TextsTrimmed(s) && (ch.ReplaceText? ==> ch.text != [] && Trim(ch.text) == ch.text)) ==>
              TextsTrimmed(UpdateFirst(s, id, ch))
  {
    var r := UpdateFirst(s, id, ch);
    if TextsTrimmed(s) && (ch.ReplaceText? ==> ch.text != [] && Trim(ch.text) == ch.text) {
      forall i | 0 <= i < |r| ensures r[i].text != [] && Trim(r[i].text) == r[i].text {
        if r[i] != s[i] {
          var k := FindIndex(s, id).value;
          assert i == k;
        }
      }
    }
  }

  /** `Math.max(...tasks.map(t => t.id))`. */
  function MaxId(s: seq<Task>): (m: int)
    requires s != []
    ensures forall i :: 0 <= i < |s| ==> s[i].id <= m
    ensures m in Ids(s)
  {
    IdsCons(s);
    if |s| == 1 then s[0].id
    else
      var rest := MaxId(s[1..]);
      if s[0].id >= rest then s[0].id else rest
  }

  /** `getNextId`: one more than the largest id, or 1 for an empty list. */
  function NextId(s: seq<Task>): (n: int)
    ensures IdsBelow(s, n)
    ensures s == [] ==> n == 1
    ensures s != [] ==> n - 1 in Ids(s)
  {
    if |s| > 0 then MaxId(s) + 1 else 1
  }

  /** The next id depends on the set of ids only, not on their order or repetition. */
  lemma NextIdDependsOnlyOnIds(s: seq<Task>, s': seq<Task>)
    requires Ids(s) == Ids(s')
    ensures NextId(s) == NextId(s')
  {
    if s != [] {
      assert s[0] in s;
    }
    if s' != [] {
      assert s'[0] in s';
    }
    if s != [] && s' != [] {
      var n, n' := NextId(s), NextId(s');
      var t :| t in s' && t.id == n - 1;
      var t' :| t' in s && t'.id == n' - 1;
      assert n - 1 <= n' - 1 && n' - 1 <= n - 1;
    }
  }

  /**
   * Appending a task whose id is the counter, and bumping the counter, keeps
   * each invariant: ids below the counter; distinct ids when they were below
   * it; trimmed texts when the new text is trimmed too.
   */
  lemma AppendKeepsWellFormed(s: seq<Task>, counter: int, t: Task)
    requires t.id == counter
    ensures IdsBelow(s, counter) ==> IdsBelow(s + [t], counter + 1)
    ensures IdsBelow(s, counter) && DistinctIds(s) ==> DistinctIds(s + [t])
    ensures TextsTrimmed(s) && t.text != [] && Trim(t.text) == t.text ==> TextsTrimmed(s + [t])
  {
  }
}
