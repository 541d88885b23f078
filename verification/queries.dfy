/**
 * The filter / order / take / count / group shapes the read projections
 * build over the leave-request table. Filters are first-order criteria, so a
 * contract can name the filter a projection uses.
 */
module Queries {
  import opened Models

  /** The `Where` predicates the projections use. */
  datatype Criterion =
    | Anything
    | HasStatus(status: Status)
    | OfEmployee(employeeId: int)
    | StartsOnOrAfter(day: int)
    | CoversDay(day: int)
    | OfType(leaveType: LeaveType)
    | Both(left: Criterion, right: Criterion)

  predicate Matches(c: Criterion, r: LeaveRequest) {
    match c
    case Anything => true
    case HasStatus(s) => r.status == s
    case OfEmployee(id) => r.employeeId == id
    case StartsOnOrAfter(d) => r.startDate >= d
    case CoversDay(d) => r.startDate <= d && r.endDate >= d
    case OfType(t) => r.leaveType == t
    case Both(a, b) => Matches(a, r) && Matches(b, r)
  }

  /** `shown` holds exactly the requests of `rs` that meet `c`, each as many
      times as `rs` does. */
  ghost predicate Selects(shown: seq<LeaveRequest>, rs: seq<LeaveRequest>, c: Criterion) {
    forall x :: multiset(shown)[x] == if Matches(c, x) then multiset(rs)[x] else 0
  }

  /** The requests that meet `c`, in table order. */
  function Where(rs: seq<LeaveRequest>, c: Criterion): (r: seq<LeaveRequest>)
    ensures Selects(r, rs, c)
    ensures forall i :: 0 <= i < |r| ==> Matches(c, r[i])
  {
    if |rs| == 0 then []
    else
      assert rs == [rs[0]] + rs[1..];
      if Matches(c, rs[0]) then [rs[0]] + Where(rs[1..], c)
      else Where(rs[1..], c)
  }

  /** `CountAsync(predicate)`: how many requests meet `c`. */
  function CountWhere(rs: seq<LeaveRequest>, c: Criterion): nat {
    if |rs| == 0 then 0
    else (if Matches(c, rs[0]) then 1 else 0) + CountWhere(rs[1..], c)
  }

  /** Counting the requests that meet `c` and filtering them agree. */
  lemma {:induction false} WhereLength(rs: seq<LeaveRequest>, c: Criterion)
    ensures |Where(rs, c)| == CountWhere(rs, c)
  {
    if |rs| > 0 {
      WhereLength(rs[1..], c);
    }
  }

  /** The count is the size of the selected sub-multiset, whoever selects it. */
  lemma SelectsCount(shown: seq<LeaveRequest>, rs: seq<LeaveRequest>, c: Criterion)
    requires Selects(shown, rs, c)
    ensures |shown| == CountWhere(rs, c)
  {
    var w := Where(rs, c);
    WhereLength(rs, c);
    assert multiset(shown) == multiset(w);
    calc {
      |shown|;
      |multiset(shown)|;
      |multiset(w)|;
      |w|;
    }
  }

  /** Requests meeting `c` split by status: every request has exactly one of
      the three statuses, so the three counts add up to the count under `c`. */
  lemma {:induction false} CountByStatus(rs: seq<LeaveRequest>, c: Criterion)
    ensures CountWhere(rs, Both(c, HasStatus(Pending)))
            + CountWhere(rs, Both(c, HasStatus(Approved)))
            + CountWhere(rs, Both(c, HasStatus(Rejected)))
            == CountWhere(rs, c)
  {
    if |rs| > 0 {
      CountByStatus(rs[1..], c);
      var x := rs[0];
      assert Matches(Both(c, HasStatus(Pending)), x) == (Matches(c, x) && x.status == Pending);
      assert Matches(Both(c, HasStatus(Approved)), x) == (Matches(c, x) && x.status == Approved);
      assert Matches(Both(c, HasStatus(Rejected)), x) == (Matches(c, x) && x.status == Rejected);
    }
  }

  /** The columns the projections order by. */
  datatype SortKey = BySubmitted | ByStart

  function KeyOf(r: LeaveRequest, k: SortKey): int {
    match k
    case BySubmitted => r.dateSubmitted
    case ByStart => r.startDate
  }

  datatype Direction = Ascending | Descending

  /** `a` may come before `b` in an ordering by `k` in direction `d`. */
  predicate Before(a: LeaveRequest, b: LeaveRequest, k: SortKey, d: Direction) {
    match d
    case Ascending => KeyOf(a, k) <= KeyOf(b, k)
    case Descending => KeyOf(a, k) >= KeyOf(b, k)
  }

  predicate Sorted(rs: seq<LeaveRequest>, k: SortKey, d: Direction) {
    forall i, j :: 0 <= i < j < |rs| ==> Before(rs[i], rs[j], k, d)
  }

  /** Inserts `x` into an ordered list, keeping it ordered. */
  function Insert(x: LeaveRequest, rs: seq<LeaveRequest>, k: SortKey, d: Direction): (r: seq<LeaveRequest>)
    requires Sorted(rs, k, d)
    ensures Sorted(r, k, d)
    ensures multiset(r) == multiset(rs) + multiset{x}
  {
    if |rs| == 0 then [x]
    else if Before(x, rs[0], k, d) then [x] + rs
    else
      assert rs == [rs[0]] + rs[1..];
      var tail := Insert(x, rs[1..], k, d);
      HeadPrecedesInsert(x, rs, tail, k, d);
      [rs[0]] + tail
  }

  /** The head of an ordered list that `x` does not precede still precedes
      everything in the list obtained by inserting `x` into the rest. */
  lemma HeadPrecedesInsert(x: LeaveRequest, rs: seq<LeaveRequest>, tail: seq<LeaveRequest>, k: SortKey, d: Direction)
    requires |rs| > 0 && Sorted(rs, k, d) && !Before(x, rs[0], k, d)
    requires multiset(tail) == multiset(rs[1..]) + multiset{x}
    ensures forall j :: 0 <= j < |tail| ==> Before(rs[0], tail[j], k, d)
  {
    forall j | 0 <= j < |tail|
      ensures Before(rs[0], tail[j], k, d)
    {
      assert tail[j] in multiset(tail);
      if tail[j] != x {
        assert tail[j] in multiset(rs[1..]);
        var m :| 0 <= m < |rs[1..]| && rs[1..][m] == tail[j];
        assert rs[m + 1] == tail[j];
      }
    }
  }

  /** `OrderBy` / `OrderByDescending`: an ordered permutation. Ties are left
      in no promised order, as with a database `ORDER BY`. */
  function OrderBy(rs: seq<LeaveRequest>, k: SortKey, d: Direction): (r: seq<LeaveRequest>)
    ensures Sorted(r, k, d)
    ensures multiset(r) == multiset(rs)
  {
    if |rs| == 0 then []
    else
      assert rs == [rs[0]] + rs[1..];
      Insert(rs[0], OrderBy(rs[1..], k, d), k, d)
  }

  function Min(a: int, b: int): int {
    if a <= b then a else b
  }

  /** `Take(n)`: the first `n` elements, or all of them when there are fewer. */
  function Take(rs: seq<LeaveRequest>, n: nat): (r: seq<LeaveRequest>)
    ensures |r| == Min(n, |rs|)
    ensures r == rs[..|r|]
  {
    if |rs| <= n then rs else rs[..n]
  }

  /** Filter then order: exactly the requests meeting `c`, ordered by `k`. */
  function Query(rs: seq<LeaveRequest>, c: Criterion, k: SortKey, d: Direction): (r: seq<LeaveRequest>)
    ensures Selects(r, rs, c)
    ensures Sorted(r, k, d)
    ensures forall i :: 0 <= i < |r| ==> Matches(c, r[i])
  {
    var w := Where(rs, c);
    var s := OrderBy(w, k, d);
    assert forall i :: 0 <= i < |s| ==> s[i] in multiset(w);
    s
  }

  /** `shown` is a first-`n` page of the requests meeting `c` ordered by `k`:
      as long as the page allows, only matching requests drawn from `rs`,
      in order, and no matching request left out comes before one shown. */
  ghost predicate SelectsFirst(shown: seq<LeaveRequest>, rs: seq<LeaveRequest>, c: Criterion, k: SortKey, d: Direction, n: nat) {
    && |shown| == Min(n, CountWhere(rs, c))
    && Sorted(shown, k, d)
    && (forall i :: 0 <= i < |shown| ==> Matches(c, shown[i]))
    && (forall x :: multiset(shown)[x] <= multiset(rs)[x])
    && (forall x :: Matches(c, x) && multiset(shown)[x] < multiset(rs)[x] ==>
          forall i :: 0 <= i < |shown| ==> Before(shown[i], x, k, d))
  }

  /** Filter, order, then take the first `n`. */
  function TopN(rs: seq<LeaveRequest>, c: Criterion, k: SortKey, d: Direction, n: nat): (r: seq<LeaveRequest>)
    ensures SelectsFirst(r, rs, c, k, d, n)
  {
    var s := Query(rs, c, k, d);
    SelectsCount(s, rs, c);
    PrefixOfSorted(s, k, d, n);
    Take(s, n)
  }

  /** A prefix of an ordered list is ordered, is contained in the list, and
      every element left out comes no earlier than any element kept. */
  lemma PrefixOfSorted(s: seq<LeaveRequest>, k: SortKey, d: Direction, n: nat)
    requires Sorted(s, k, d)
    ensures Sorted(Take(s, n), k, d)
    ensures forall x :: multiset(Take(s, n))[x] <= multiset(s)[x]
    ensures forall x :: multiset(Take(s, n))[x] < multiset(s)[x] ==>
              forall i :: 0 <= i < |Take(s, n)| ==> Before(Take(s, n)[i], x, k, d)
  {
    var t := Take(s, n);
    var rest := s[|t|..];
    assert s == t + rest;
    assert multiset(s) == multiset(t) + multiset(rest);
    forall x | multiset(t)[x] < multiset(s)[x]
      ensures forall i :: 0 <= i < |t| ==> Before(t[i], x, k, d)
    {
      assert x in multiset(rest);
      var m :| 0 <= m < |rest| && rest[m] == x;
      assert s[|t| + m] == x;
    }
  }

  /** Categories of a list of requests, position by position. */
  function TypesOf(rs: seq<LeaveRequest>): (ts: seq<LeaveType>)
    ensures |ts| == |rs|
    ensures forall i :: 0 <= i < |rs| ==> ts[i] == rs[i].leaveType
  {
    seq(|rs|, i requires 0 <= i < |rs| => rs[i].leaveType)
  }

  /** A `GroupBy(...).Count()` dictionary as a list of (category, count)
      entries; its key order is not part of what it means. */
  type Tally = seq<(LeaveType, nat)>

  /** The categories that have an entry. */
  function KeysOf(g: Tally): set<LeaveType> {
    if |g| == 0 then {} else {g[0].0} + KeysOf(g[1..])
  }

  /** No category has two entries. */
  predicate DistinctKeys(g: Tally) {
    |g| == 0 || (g[0].0 !in KeysOf(g[1..]) && DistinctKeys(g[1..]))
  }

  /** The count stored for `t`, or 0 when `t` has no entry. */
  function CountOf(g: Tally, t: LeaveType): nat {
    if |g| == 0 then 0
    else if g[0].0 == t then g[0].1
    else CountOf(g[1..], t)
  }

  /** Sum of the counts of all entries. */
  function SumCounts(g: Tally): nat {
    if |g| == 0 then 0 else g[0].1 + SumCounts(g[1..])
  }

  /** Adds one occurrence of `t`: bumps its entry, or appends a new one. */
  function Bump(g: Tally, t: LeaveType): Tally {
    if |g| == 0 then [(t, 1)]
    else if g[0].0 == t then [(t, g[0].1 + 1)] + g[1..]
    else [g[0]] + Bump(g[1..], t)
  }

  /** Bumping adds `t` to the keys, keeps them distinct, raises the count of
      `t` alone by one and so the total by one, and creates no empty entry. */
  lemma {:induction false} BumpSpec(g: Tally, t: LeaveType)
    requires DistinctKeys(g)
    ensures KeysOf(Bump(g, t)) == KeysOf(g) + {t}
    ensures DistinctKeys(Bump(g, t))
    ensures SumCounts(Bump(g, t)) == SumCounts(g) + 1
    ensures forall u :: CountOf(Bump(g, t), u) == CountOf(g, u) + (if u == t then 1 else 0)
    ensures (forall i :: 0 <= i < |g| ==> g[i].1 > 0) ==> forall i :: 0 <= i < |Bump(g, t)| ==> Bump(g, t)[i].1 > 0
  {
    var r := Bump(g, t);
    if |g| == 0 {
      assert r[1..] == [];
    } else if g[0].0 == t {
      assert r[1..] == g[1..];
    } else {
      BumpSpec(g[1..], t);
      assert r[1..] == Bump(g[1..], t);
      if forall i :: 0 <= i < |g| ==> g[i].1 > 0 {
        forall i | 0 <= i < |r| ensures r[i].1 > 0 {
          if i > 0 {
            assert r[i] == Bump(g[1..], t)[i - 1];
            assert forall m :: 0 <= m < |g[1..]| ==> g[1..][m] == g[m + 1];
          }
        }
      }
    }
  }

  /** Groups categories and counts each group: one entry per category that
      occurs, each with a positive count equal to its number of occurrences,
      so the counts add up to the number of categories grouped. */
  function GroupCount(ts: seq<LeaveType>): (g: Tally)
    ensures DistinctKeys(g)
    ensures forall i :: 0 <= i < |g| ==> g[i].1 > 0
    ensures forall t :: CountOf(g, t) == multiset(ts)[t]
    ensures SumCounts(g) == |ts|
  {
    if |ts| == 0 then []
    else
      var init := ts[..|ts| - 1];
      assert ts == init + [ts[|ts| - 1]];
      BumpSpec(GroupCount(init), ts[|ts| - 1]);
      Bump(GroupCount(init), ts[|ts| - 1])
  }

  /** Prepending a request adds one occurrence of its category. */
  lemma TypesOfCons(x: LeaveRequest, w: seq<LeaveRequest>, t: LeaveType)
    ensures multiset(TypesOf([x] + w))[t] == (if x.leaveType == t then 1 else 0) + multiset(TypesOf(w))[t]
  {
    assert TypesOf([x] + w) == [x.leaveType] + TypesOf(w);
  }

  /** Unfolds one step of the count of category-`t` requests meeting `c`. */
  lemma CountOfTypeCons(rs: seq<LeaveRequest>, c: Criterion, t: LeaveType)
    requires |rs| > 0
    ensures CountWhere(rs, Both(c, OfType(t)))
            == (if Matches(c, rs[0]) && rs[0].leaveType == t then 1 else 0) + CountWhere(rs[1..], Both(c, OfType(t)))
  {
    assert Matches(Both(c, OfType(t)), rs[0]) == (Matches(c, rs[0]) && rs[0].leaveType == t);
  }

  /** Unfolds one step of the categories of the requests meeting `c`. */
  lemma TypesOfWhereCons(rs: seq<LeaveRequest>, c: Criterion, t: LeaveType)
    requires |rs| > 0
    ensures multiset(TypesOf(Where(rs, c)))[t]
            == (if Matches(c, rs[0]) && rs[0].leaveType == t then 1 else 0) + multiset(TypesOf(Where(rs[1..], c)))[t]
  {
    if Matches(c, rs[0]) {
      TypesOfCons(rs[0], Where(rs[1..], c), t);
    }
  }

  /** Among the requests meeting `c`, the number of category `t` is the number
      of requests meeting both `c` and "is of category `t`". */
  lemma {:induction false} TypesOfWhere(rs: seq<LeaveRequest>, c: Criterion, t: LeaveType)
    ensures multiset(TypesOf(Where(rs, c)))[t] == CountWhere(rs, Both(c, OfType(t)))
  {
    if |rs| > 0 {
      TypesOfWhere(rs[1..], c, t);
      CountOfTypeCons(rs, c, t);
      TypesOfWhereCons(rs, c, t);
    }
  }
}
