/** The issue list of the React client: which issues a user sees, the
    "my issues" / status filter, the three sort orders, and who may manage an
    issue. `Array.prototype.sort` is modelled as a stable insertion sort. */
module IssuesView {
  import opened Maybe
  import opened Js
  import Text
  import Seqs

  /** An issue as the client holds it. `assignedTo` and `employeeId` are
      whatever JSON the server sent. */
  datatype Issue = Issue(employeeId: Val, assignedTo: Val, status: string, priority: string, createdAt: int)

  /** The logged-in user's fields the rules read. */
  datatype User = User(id: Val, role: Val, department: Val)

  /** Department "hr" or role "hr". */
  predicate IsHr(u: User) {
    StrictEq(u.department, Str("hr")) || StrictEq(u.role, Str("hr"))
  }

  predicate OwnIssue(u: User, i: Issue) {
    StrictEq(i.employeeId, u.id)
  }

  /** The visibility test for a user who is not HR; its third disjunct repeats the first. */
  predicate SeenByNonHr(u: User, i: Issue) {
    StrictEq(i.assignedTo, u.department) || OwnIssue(u, i) ||
    (StrictEq(u.role, Str("head")) && StrictEq(i.assignedTo, u.department))
  }

  /** `issues || []`, narrowed to the user's department and own issues unless the user is HR. */
  function Visible(issues: Option<seq<Issue>>, u: User): (r: seq<Issue>)
    ensures IsHr(u) ==> r == issues.GetOr([])
    ensures !IsHr(u) ==> r == Seqs.Filter(issues.GetOr([]), i => SeenByNonHr(u, i))
  {
    var all := issues.GetOr([]);
    if IsHr(u) then all else Seqs.Filter(all, i => SeenByNonHr(u, i))
  }

  /** A user who is not HR sees exactly the issues assigned to their department or created by them. */
  lemma NonHrSeesDepartmentAndOwn(issues: seq<Issue>, u: User, i: Issue)
    requires !IsHr(u)
    ensures i in Visible(Some(issues), u) <==> i in issues && (StrictEq(i.assignedTo, u.department) || OwnIssue(u, i))
  {
    var r := Visible(Some(issues), u);
    if i in issues && (StrictEq(i.assignedTo, u.department) || OwnIssue(u, i)) {
      var k :| 0 <= k < |issues| && issues[k] == i;
      assert SeenByNonHr(u, issues[k]);
    }
    if i in r {
      var k :| 0 <= k < |r| && r[k] == i;
      assert SeenByNonHr(u, r[k]);
    }
  }

  /** The `filter` select: "all", "my-issues", or a status. */
  function ApplyFilter(issues: seq<Issue>, u: User, filter: string): (r: seq<Issue>)
    ensures filter == "all" ==> r == issues
    ensures filter == "my-issues" ==> r == Seqs.Filter(issues, i => OwnIssue(u, i))
    ensures filter != "all" && filter != "my-issues" ==> r == Seqs.Filter(issues, (i: Issue) => i.status == filter)
  {
    if filter == "all" then issues
    else if filter == "my-issues" then Seqs.Filter(issues, i => OwnIssue(u, i))
    else Seqs.Filter(issues, (i: Issue) => i.status == filter)
  }

  /** The filter keeps a sub-list: every issue it answers is one it was given,
      owned by the user under "my-issues", of that status under a status filter. */
  lemma FilterNarrows(issues: seq<Issue>, u: User, filter: string)
    ensures var r := ApplyFilter(issues, u, filter);
      && (forall k :: 0 <= k < |r| ==> r[k] in issues)
      && (filter == "my-issues" ==> forall k :: 0 <= k < |r| ==> OwnIssue(u, r[k]))
      && (filter != "all" && filter != "my-issues" ==> forall k :: 0 <= k < |r| ==> r[k].status == filter)
  {
  }

  /** `{ high: 3, medium: 2, low: 1 }`; other priorities are ranked 0. */
  function Rank(priority: string): (n: int)
    ensures 0 <= n <= 3
    ensures priority == "high" ==> n == 3
    ensures priority == "medium" ==> n == 2
    ensures priority == "low" ==> n == 1
  {
    if priority == "high" then 3 else if priority == "medium" then 2 else if priority == "low" then 1 else 0
  }

  /** The `sortBy` select: newest first, highest priority first, status
      ascending; any other value leaves every comparison at 0. */
  datatype SortKey = ByCreatedAt | ByPriority | ByStatus | Unsorted

  function SortKeyOf(sortBy: string): (k: SortKey)
    ensures k == Unsorted <==> sortBy != "createdAt" && sortBy != "priority" && sortBy != "status"
  {
    if sortBy == "createdAt" then ByCreatedAt
    else if sortBy == "priority" then ByPriority
    else if sortBy == "status" then ByStatus
    else Unsorted
  }

  /** `a` may stay before `b` under the comparator for the key. */
  predicate Le(key: SortKey, a: Issue, b: Issue) {
    match key
    case ByCreatedAt => a.createdAt >= b.createdAt
    case ByPriority => Rank(a.priority) >= Rank(b.priority)
    case ByStatus => Text.LexLeq(a.status, b.status)
    case Unsorted => true
  }

  /** Each comparator is a total preorder. */
  lemma LeIsTotalPreorder(key: SortKey, a: Issue, b: Issue, c: Issue)
    ensures Le(key, a, b) || Le(key, b, a)
    ensures Le(key, a, b) && Le(key, b, c) ==> Le(key, a, c)
  {
    Text.LexLeqTotalOrder(a.status, b.status, c.status);
  }

  predicate Sorted(key: SortKey, s: seq<Issue>) {
    forall i, j :: 0 <= i < j < |s| ==> Le(key, s[i], s[j])
  }

  /** Insert `x` into a sorted list before the first element that must come after it. */
  function Insert(key: SortKey, x: Issue, s: seq<Issue>): (r: seq<Issue>)
    requires Sorted(key, s)
    ensures Sorted(key, r)
    ensures multiset(r) == multiset(s) + multiset{x}
    decreases |s|
  {
    if s == [] then [x]
    else if !Le(key, s[0], x) then
      LeIsTotalPreorder(key, s[0], x, x);
      forall j | 0 <= j < |s| ensures Le(key, x, s[j]) {
        LeIsTotalPreorder(key, x, s[0], s[j]);
      }
      [x] + s
    else
      var t := Insert(key, x, s[1..]);
      assert s == [s[0]] + s[1..];
      forall j | 0 <= j < |t| ensures Le(key, s[0], t[j]) {
        assert t[j] in multiset(s[1..]) + multiset{x};
        if t[j] != x {
          assert t[j] in s[1..];
        }
      }
      [s[0]] + t
  }

  /** The sort: each element is inserted after the ones it does not precede. */
  function Sort(key: SortKey, s: seq<Issue>): (r: seq<Issue>)
    ensures Sorted(key, r)
    ensures multiset(r) == multiset(s)
    decreases |s|
  {
    if s == [] then []
    else
      assert s == s[..|s| - 1] + [s[|s| - 1]];
      Insert(key, s[|s| - 1], Sort(key, s[..|s| - 1]))
  }

  /** One step of the sort: the last issue is inserted into the sorted rest. */
  lemma SortStep(key: SortKey, s: seq<Issue>)
    requires s != []
    ensures Sort(key, s) == Insert(key, s[|s| - 1], Sort(key, s[..|s| - 1]))
  {
  }

  lemma FrontLast(s: seq<Issue>)
    requires s != []
    ensures s[..|s| - 1] + [s[|s| - 1]] == s
  {
  }

  /** Under an unknown `key` every comparison is 0, and the order is kept. */
  lemma {:induction false} UnsortedKeepsOrder(s: seq<Issue>)
    ensures Sort(Unsorted, s) == s
    decreases |s|
  {
    if s != [] {
      var p, x := s[..|s| - 1], s[|s| - 1];
      SortStep(Unsorted, s);
      UnsortedKeepsOrder(p);
      InsertAfterAll(Unsorted, x, p);
      FrontLast(s);
    }
  }

  lemma {:induction false} InsertAfterAll(key: SortKey, x: Issue, s: seq<Issue>)
    requires Sorted(key, s)
    requires forall j :: 0 <= j < |s| ==> Le(key, s[j], x)
    ensures Insert(key, x, s) == s + [x]
    decreases |s|
  {
    if s != [] {
      InsertAfterAll(key, x, s[1..]);
    }
  }

  /** The issues the comparator for `key` ranks equal to `z`. */
  function Ties(key: SortKey, z: Issue): Issue -> bool {
    (y: Issue) => Le(key, y, z) && Le(key, z, y)
  }

  /** An issue that must come after the head of a sorted list ties with none of it. */
  lemma BeforeAllTiesNone(key: SortKey, x: Issue, s: seq<Issue>, z: Issue)
    requires Sorted(key, s) && s != [] && !Le(key, s[0], x) && Ties(key, z)(x)
    ensures Seqs.Filter(s, Ties(key, z)) == []
  {
    forall j | 0 <= j < |s| ensures !Ties(key, z)(s[j]) {
      if Ties(key, z)(s[j]) {
        LeIsTotalPreorder(key, s[0], s[j], z);
        LeIsTotalPreorder(key, s[0], z, x);
        assert false;
      }
    }
    Seqs.FilterNone(s, Ties(key, z));
  }

  /** Inserting in front: `x` ties with none of the list, or is dropped by the filter. */
  lemma InsertFrontStable(key: SortKey, x: Issue, s: seq<Issue>, z: Issue)
    requires Sorted(key, s) && s != [] && !Le(key, s[0], x)
    ensures Seqs.Filter([x] + s, Ties(key, z)) == Seqs.Filter(s, Ties(key, z)) + Seqs.Filter([x], Ties(key, z))
  {
    var p := Ties(key, z);
    Seqs.FilterAppend([x], s, p);
    if p(x) {
      BeforeAllTiesNone(key, x, s, z);
    } else {
      Seqs.FilterNone([x], p);
    }
  }

  /** Inserting puts `x` after every issue it ties with. */
  lemma {:induction false} InsertStable(key: SortKey, x: Issue, s: seq<Issue>, z: Issue)
    requires Sorted(key, s)
    ensures Seqs.Filter(Insert(key, x, s), Ties(key, z)) == Seqs.Filter(s, Ties(key, z)) + Seqs.Filter([x], Ties(key, z))
    decreases |s|
  {
    if s == [] {
      assert Insert(key, x, s) == [x];
    } else if !Le(key, s[0], x) {
      assert Insert(key, x, s) == [x] + s;
      InsertFrontStable(key, x, s, z);
    } else {
      var t := Insert(key, x, s[1..]);
      assert Insert(key, x, s) == [s[0]] + t;
      InsertStable(key, x, s[1..], z);
      Seqs.FilterReplaceTail(s, t, Seqs.Filter([x], Ties(key, z)), Ties(key, z));
    }
  }

  /** The sort is stable: the issues that tie with any one issue keep their relative order. */
  lemma {:induction false} SortStable(key: SortKey, s: seq<Issue>, z: Issue)
    ensures Seqs.Filter(Sort(key, s), Ties(key, z)) == Seqs.Filter(s, Ties(key, z))
    decreases |s|
  {
    if s != [] {
      var q, x := s[..|s| - 1], s[|s| - 1];
      SortStep(key, s);
      SortStable(key, q, z);
      InsertStable(key, x, Sort(key, q), z);
      Seqs.FilterAppend(q, [x], Ties(key, z));
      FrontLast(s);
    }
  }

  /** `getFilteredIssues`. */
  function FilteredIssues(issues: Option<seq<Issue>>, u: User, filter: string, sortBy: string): (r: seq<Issue>)
    ensures Sorted(SortKeyOf(sortBy), r)
    ensures multiset(r) == multiset(ApplyFilter(Visible(issues, u), u, filter))
  {
    Sort(SortKeyOf(sortBy), ApplyFilter(Visible(issues, u), u, filter))
  }

  /** Every issue listed is one of the user's issues, visible to them, and
      passes the filter; nothing that passes is dropped. */
  lemma FilteredIssuesAreVisible(issues: seq<Issue>, u: User, filter: string, sortBy: string, i: Issue)
    ensures i in FilteredIssues(Some(issues), u, filter, sortBy) <==> i in ApplyFilter(Visible(Some(issues), u), u, filter)
    ensures i in FilteredIssues(Some(issues), u, filter, sortBy) ==> i in issues
    ensures !IsHr(u) && i in FilteredIssues(Some(issues), u, filter, sortBy) ==>
      StrictEq(i.assignedTo, u.department) || OwnIssue(u, i)
  {
    var v := Visible(Some(issues), u);
    var f := ApplyFilter(v, u, filter);
    var r := FilteredIssues(Some(issues), u, filter, sortBy);
    assert i in r <==> i in multiset(r);
    assert i in f <==> i in multiset(f);
    FilterNarrows(v, u, filter);
    if i in f {
      var k :| 0 <= k < |f| && f[k] == i;
      assert i in v;
      if !IsHr(u) {
        NonHrSeesDepartmentAndOwn(issues, u, i);
      }
    }
  }

  /** `canManageIssue`. */
  predicate CanManage(u: User, i: Issue) {
    IsHr(u) || (StrictEq(u.role, Str("head")) && StrictEq(i.assignedTo, u.department)) || OwnIssue(u, i)
  }

  /** A user can manage only issues they can see. */
  lemma ManageableIsVisible(issues: seq<Issue>, u: User, i: Issue)
    requires i in issues && CanManage(u, i)
    ensures i in Visible(Some(issues), u)
  {
    if !IsHr(u) {
      NonHrSeesDepartmentAndOwn(issues, u, i);
    }
  }

  /** A head outside HR may manage the issues of their own department that
      other people created, and no issue of another department they did not create. */
  lemma HeadManagesOwnDepartment(u: User, i: Issue)
    requires !IsHr(u) && StrictEq(u.role, Str("head"))
    ensures !OwnIssue(u, i) ==> (CanManage(u, i) <==> StrictEq(i.assignedTo, u.department))
  {
  }
}
