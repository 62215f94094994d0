/** The table of a virtual disk: rows annotated with their depth, linked in place into the tree they denote. */
module FatTree {
  import opened Bytes

  datatype Priv = Priv(firstClust: nat, lastClust: nat, lastReserved: nat, numSubentry: nat,
                       top: Option<nat>, sub: Option<nat>, next: Option<nat>)

  /** One row. A row's links are indices of other rows; the row with the NULL name is the end of the sequence. */
  datatype Entry = Entry(name: seq<byte>, dir: bool, level: int, offset: nat, currSize: nat, maxSize: nat,
                         userData: nat, created: nat, modified: nat, accessed: nat, readcb: Option<nat>, priv: Priv)

  /** What makes a table acceptable: it starts with a directory at level 0, every later row is below it, a row is at
      most one level away from the row before it, and only a directory is followed by a deeper row. */
  predicate Accepts(rows: seq<Entry>) {
    && |rows| > 0 && rows[0].level == 0 && rows[0].dir
    && forall i | 0 < i < |rows| :: FollowsOn(rows, i)
  }

  predicate FollowsOn(rows: seq<Entry>, i: nat)
    requires 0 < i < |rows|
  {
    && rows[i].level >= 1 && rows[i - 1].level - 1 <= rows[i].level <= rows[i - 1].level + 1
    && (rows[i].level == rows[i - 1].level + 1 ==> rows[i - 1].dir)
  }

  ghost predicate AcceptsUpTo(rows: seq<Entry>, n: nat) {
    n <= |rows| && Accepts(rows[..n])
  }

  // ---- The tree the levels denote ----

  /** The closest row before `n` at a level below `level`. */
  function LastBelow(rows: seq<Entry>, n: nat, level: int): (r: Option<nat>)
    requires n <= |rows|
    ensures match r
      case None => forall k | 0 <= k < n :: rows[k].level >= level
      case Some(p) => p < n && rows[p].level < level && forall k | p < k < n :: rows[k].level >= level
  {
    if n == 0 then None
    else if rows[n - 1].level < level then Some(n - 1)
    else LastBelow(rows, n - 1, level)
  }

  function Parent(rows: seq<Entry>, i: nat): (r: Option<nat>)
    requires i < |rows|
    ensures r.Some? ==> r.value < i
  {
    LastBelow(rows, i, rows[i].level)
  }

  lemma {:induction false} LastBelowSkips(rows: seq<Entry>, n: nat, m: nat, level: int)
    requires m <= n <= |rows| && forall k | m <= k < n :: rows[k].level >= level
    ensures LastBelow(rows, n, level) == LastBelow(rows, m, level)
  {
    if m < n {
      LastBelowSkips(rows, n - 1, m, level);
    }
  }

  /** All rows after `j` and before `n` are deeper than row `j`. */
  predicate Open(rows: seq<Entry>, j: nat, n: nat)
    requires j < |rows| && n <= |rows|
  {
    forall k | j < k < n :: rows[k].level > rows[j].level
  }

  /** The next sibling of row `j` among the first `n` rows. */
  function NextIn(rows: seq<Entry>, j: nat, n: nat): (r: Option<nat>)
    requires j < |rows| && n <= |rows|
    ensures match r
      case None => forall k | j < k < n :: !(rows[k].level == rows[j].level && Open(rows, j, k))
      case Some(k) => j < k < n && rows[k].level == rows[j].level && Open(rows, j, k)
  {
    if n <= j + 1 then None
    else
      var before := NextIn(rows, j, n - 1);
      if before.Some? then before
      else if rows[n - 1].level == rows[j].level && Open(rows, j, n - 1) then Some(n - 1)
      else None
  }

  function SubIn(rows: seq<Entry>, j: nat, n: nat): (r: Option<nat>)
    requires j < |rows| && n <= |rows|
  {
    if j + 1 < n && rows[j + 1].level == rows[j].level + 1 then Some(j + 1) else None
  }

  /** The children of row `p` among the first `n` rows, in table order. */
  function ChildrenIn(rows: seq<Entry>, p: nat, n: nat): (r: seq<nat>)
    requires n <= |rows|
    ensures forall i | 0 <= i < |r| :: r[i] < n && Parent(rows, r[i]) == Some(p)
  {
    if n == 0 then []
    else ChildrenIn(rows, p, n - 1) + if Parent(rows, n - 1) == Some(p) then [n - 1] else []
  }

  /** What num_subentry counts: the children except the first. */
  function NumSub(rows: seq<Entry>, p: nat, n: nat): nat
    requires n <= |rows|
  {
    var c := |ChildrenIn(rows, p, n)|;
    if c == 0 then 0 else c - 1
  }

  /** The part of a row that linking fills in. */
  datatype Links = Links(top: Option<nat>, sub: Option<nat>, next: Option<nat>, numSubentry: nat)

  function LinksOf(row: Entry): Links {
    Links(row.priv.top, row.priv.sub, row.priv.next, row.priv.numSubentry)
  }

  function Relink(row: Entry, l: Links): (r: Entry)
    ensures LinksOf(r) == l && r.dir == row.dir && r.level == row.level
  {
    row.(priv := row.priv.(top := l.top, sub := l.sub, next := l.next, numSubentry := l.numSubentry))
  }

  lemma RelinkTwice(row: Entry, l: Links, m: Links)
    ensures Relink(Relink(row, l), m) == Relink(row, m)
  {
  }

  function LinksIn(rows: seq<Entry>, j: nat, n: nat): Links
    requires j < |rows| && n <= |rows|
  {
    Links(Parent(rows, j), SubIn(rows, j, n), NextIn(rows, j, n), NumSub(rows, j, n))
  }

  function LinkedRow(rows: seq<Entry>, j: nat, n: nat): Entry
    requires j < |rows| && n <= |rows|
  {
    Relink(rows[j], LinksIn(rows, j, n))
  }

  /** The table once its first `n` rows are linked. */
  function Linked(rows: seq<Entry>, n: nat): (r: seq<Entry>)
    requires n <= |rows|
    ensures |r| == |rows|
  {
    seq(|rows|, j requires 0 <= j < |rows| => if j < n then LinkedRow(rows, j, n) else rows[j])
  }

  /** In an accepted prefix a parent is a directory exactly one level up, and only the first row has none. */
  lemma {:induction false} ParentOneUp(rows: seq<Entry>, i: nat)
    requires i < |rows| && Accepts(rows[..i + 1])
    ensures Parent(rows, i) == None <==> i == 0
    ensures i > 0 ==> rows[Parent(rows, i).value].level == rows[i].level - 1 && rows[Parent(rows, i).value].dir
  {
    if i > 0 {
      assert FollowsOn(rows[..i + 1], i);
      PrefixAccepted(rows, i, i + 1);
      ParentOneUp(rows, i - 1);
      if rows[i].level == rows[i - 1].level {
        assert LastBelow(rows, i, rows[i].level) == LastBelow(rows, i - 1, rows[i].level);
      } else if rows[i].level < rows[i - 1].level {
        ParentAfterDrop(rows, i);
        PrefixAccepted(rows, Parent(rows, i - 1).value + 1, i + 1);
        ParentOneUp(rows, Parent(rows, i - 1).value);
      }
    }
  }

  lemma PrefixAccepted(rows: seq<Entry>, m: nat, n: nat)
    requires 0 < m <= n <= |rows| && Accepts(rows[..n])
    ensures Accepts(rows[..m])
  {
    forall k | 0 < k < m ensures FollowsOn(rows[..m], k) {
      assert FollowsOn(rows[..n], k);
    }
  }

  /** A row one level up from the row before it is the next sibling of that row's parent. */
  lemma ParentAfterDrop(rows: seq<Entry>, i: nat)
    requires 0 < i < |rows| && rows[i].level == rows[i - 1].level - 1
    requires Parent(rows, i - 1).Some? && rows[Parent(rows, i - 1).value].level == rows[i].level
    ensures var p := Parent(rows, i - 1).value; Parent(rows, i) == Parent(rows, p) && Open(rows, p, i)
  {
    var p := Parent(rows, i - 1).value;
    LastBelowSkips(rows, i, p, rows[i].level);
  }

  lemma NoSiblings(rows: seq<Entry>, p: nat, n: nat)
    requires n <= |rows| && n <= p + 1
    ensures ChildrenIn(rows, p, n) == []
  {
  }

  lemma {:induction false} IsChildIn(rows: seq<Entry>, i: nat, p: nat, n: nat)
    requires i < n <= |rows| && Parent(rows, i) == Some(p)
    ensures i in ChildrenIn(rows, p, n)
  {
    if i < n - 1 {
      IsChildIn(rows, i, p, n - 1);
    }
  }

  function Unlinked(row: Entry): Entry {
    Relink(row, Links(None, None, None, 0))
  }

  function WithTop(row: Entry, top: nat): Entry {
    Relink(row, Links(Some(top), None, None, 0))
  }

  function WithSub(row: Entry, sub: nat): Entry {
    Relink(row, LinksOf(row).(sub := Some(sub)))
  }

  function WithNext(row: Entry, next: nat): Entry {
    Relink(row, LinksOf(row).(next := Some(next)))
  }

  function OneMoreSub(row: Entry): Entry {
    Relink(row, LinksOf(row).(numSubentry := row.priv.numSubentry + 1))
  }

  /** Adding row `i` as the first child of the row before it changes that row's sub link only. */
  lemma AddChild(rows: seq<Entry>, i: nat, j: nat)
    requires 0 < i < |rows| && rows[i].level == rows[i - 1].level + 1 && j <= i
    ensures LinkedRow(rows, j, i + 1) ==
      if j == i then WithTop(rows[i], i - 1)
      else if j == i - 1 then WithSub(LinkedRow(rows, j, i), i)
      else LinkedRow(rows, j, i)
  {
    if j == i {
      NoSiblings(rows, i, i + 1);
      assert LinksIn(rows, j, i + 1) == Links(Some(i - 1), None, None, 0);
    } else {
      DeeperIsNoSibling(rows, i, j);
      FirstChildUncounted(rows, i, j);
      var l := LinksIn(rows, j, i);
      assert LinksIn(rows, j, i + 1) == if j == i - 1 then l.(sub := Some(i)) else l;
      RelinkTwice(rows[j], l, l.(sub := Some(i)));
    }
  }

  lemma FirstChildUncounted(rows: seq<Entry>, i: nat, j: nat)
    requires 0 < i < |rows| && rows[i].level == rows[i - 1].level + 1 && j < i
    ensures NumSub(rows, j, i + 1) == NumSub(rows, j, i)
  {
    assert Parent(rows, i) == Some(i - 1);
    NoSiblings(rows, i - 1, i);
    OneMoreChild(rows, j, i);
  }

  lemma OneMoreChild(rows: seq<Entry>, p: nat, n: nat)
    requires n < |rows|
    ensures |ChildrenIn(rows, p, n + 1)| == |ChildrenIn(rows, p, n)| + if Parent(rows, n) == Some(p) then 1 else 0
  {
  }

  lemma DeeperIsNoSibling(rows: seq<Entry>, i: nat, j: nat)
    requires j < i < |rows| && rows[i].level == rows[i - 1].level + 1
    ensures NextIn(rows, j, i + 1) == NextIn(rows, j, i)
  {
    assert j < i - 1 && Open(rows, j, i) ==> rows[i - 1].level > rows[j].level;
  }

  /** Adding row `i` as the next sibling of row `s`, whose parent is `t`, changes one link and one count. */
  lemma AddSibling(rows: seq<Entry>, i: nat, s: nat, t: nat, j: nat)
    requires t < s < i < |rows| && rows[i].level == rows[s].level && Open(rows, s, i)
    requires rows[i].level <= rows[i - 1].level && j <= i
    requires Parent(rows, s) == Some(t) == Parent(rows, i)
    ensures LinkedRow(rows, j, i + 1) ==
      if j == i then WithTop(rows[i], t)
      else if j == s then WithNext(LinkedRow(rows, j, i), i)
      else if j == t then OneMoreSub(LinkedRow(rows, j, i))
      else LinkedRow(rows, j, i)
  {
    if j == i {
      NoSiblings(rows, i, i + 1);
      assert LinksIn(rows, j, i + 1) == Links(Some(t), None, None, 0);
    } else {
      SiblingLink(rows, i, s, j);
      SiblingCount(rows, i, s, t, j);
      var l := LinksIn(rows, j, i);
      var m := if j == s then l.(next := Some(i)) else if j == t then l.(numSubentry := l.numSubentry + 1) else l;
      assert LinksIn(rows, j, i + 1) == m;
      RelinkTwice(rows[j], l, m);
    }
  }

  lemma SiblingLink(rows: seq<Entry>, i: nat, s: nat, j: nat)
    requires s < i < |rows| && rows[i].level == rows[s].level && Open(rows, s, i) && j < i
    ensures NextIn(rows, j, i + 1) == if j == s then Some(i) else NextIn(rows, j, i)
  {
    if j == s {
      assert NextIn(rows, s, i) == None;
    } else if j < s {
      assert Open(rows, j, i) ==> rows[s].level > rows[j].level;
    }
  }

  lemma SiblingCount(rows: seq<Entry>, i: nat, s: nat, t: nat, j: nat)
    requires s < i < |rows| && Parent(rows, s) == Some(t) == Parent(rows, i)
    ensures NumSub(rows, j, i + 1) == NumSub(rows, j, i) + if j == t then 1 else 0
  {
    IsChildIn(rows, s, t, i);
  }

  lemma LinkedChild(rows: seq<Entry>, i: nat)
    requires 0 < i < |rows| && rows[i].level == rows[i - 1].level + 1
    ensures Linked(rows, i + 1) ==
      Linked(rows, i)[i - 1 := WithSub(Linked(rows, i)[i - 1], i)][i := WithTop(rows[i], i - 1)]
  {
    var was := Linked(rows, i);
    var now := was[i - 1 := WithSub(was[i - 1], i)][i := WithTop(rows[i], i - 1)];
    forall j | 0 <= j < |rows| ensures Linked(rows, i + 1)[j] == now[j] {
      if j <= i {
        AddChild(rows, i, j);
      }
    }
  }

  lemma LinkedSibling(rows: seq<Entry>, i: nat, s: nat, t: nat)
    requires t < s < i < |rows| && rows[i].level == rows[s].level && Open(rows, s, i)
    requires rows[i].level <= rows[i - 1].level
    requires Parent(rows, s) == Some(t) == Parent(rows, i)
    ensures Linked(rows, i + 1) ==
      Linked(rows, i)[t := OneMoreSub(Linked(rows, i)[t])][i := WithTop(rows[i], t)]
        [s := WithNext(Linked(rows, i)[s], i)]
  {
    var was := Linked(rows, i);
    var now := was[t := OneMoreSub(was[t])][i := WithTop(rows[i], t)][s := WithNext(was[s], i)];
    forall j | 0 <= j < |rows| ensures Linked(rows, i + 1)[j] == now[j] {
      if j <= i {
        AddSibling(rows, i, s, t, j);
      }
    }
  }

  lemma LinkedTop(rows: seq<Entry>, n: nat, j: nat)
    requires j < n <= |rows|
    ensures Linked(rows, n)[j].priv.top == Parent(rows, j) && Linked(rows, n)[j].dir == rows[j].dir
  {
  }

  lemma LinkedRest(rows: seq<Entry>, n: nat)
    requires n < |rows|
    ensures Linked(rows, n)[n] == rows[n]
  {
  }

  lemma LinkFirst(rows: seq<Entry>)
    requires |rows| > 0
    ensures Linked(rows, 1) == rows[0 := Unlinked(rows[0])]
  {
    NoSiblings(rows, 0, 1);
  }

  /** Links the rows in place; false as soon as a row does not follow on. */
  method InitEntries(entries: array<Entry>) returns (ok: bool)
    modifies entries
    ensures ok <==> Accepts(old(entries[..]))
    ensures ok ==> entries[..] == Linked(old(entries[..]), entries.Length)
  {
    ghost var rows := entries[..];
    if entries.Length == 0 || entries[0].level != 0 || !entries[0].dir {
      return false;
    }
    entries[0] := Unlinked(entries[0]);
    LinkFirst(rows);
    var i, n, e := 1, 0, 0;
    while i < entries.Length
      invariant 1 <= i <= entries.Length && e == i - 1
      invariant AcceptsUpTo(rows, i) && n == rows[i - 1].level && n >= 0
      invariant entries[..] == Linked(rows, i)
    {
      ParentOneUp(rows, i - 1);
      ok, n := LinkRow(entries, i, n, rows);
      ExtendAccepted(rows, i);
      if !ok {
        return;
      }
      e, i := i, i + 1;
    }
    assert rows[..i] == rows;
    return true;
  }

  lemma ExtendAccepted(rows: seq<Entry>, i: nat)
    requires 0 < i < |rows| && AcceptsUpTo(rows, i)
    ensures AcceptsUpTo(rows, i + 1) <==> FollowsOn(rows, i)
    ensures Accepts(rows) ==> FollowsOn(rows, i)
  {
    var longer := rows[..i + 1];
    forall k | 0 < k < i ensures FollowsOn(longer, k) {
      assert FollowsOn(rows[..i], k);
    }
    assert FollowsOn(longer, i) <==> FollowsOn(rows, i);
  }

  /** One pass of the loop: row `i` comes after row `i - 1`, which is at level `n`. */
  method LinkRow(entries: array<Entry>, i: nat, n: int, ghost rows: seq<Entry>) returns (ok: bool, level: int)
    requires 0 < i < entries.Length == |rows| && n == rows[i - 1].level && n >= 0 && AcceptsUpTo(rows, i)
    requires entries[..] == Linked(rows, i)
    modifies entries
    ensures ok <==> FollowsOn(rows, i)
    ensures ok ==> entries[..] == Linked(rows, i + 1) && level == rows[i].level
  {
    ParentOneUp(rows, i - 1);
    var e := i - 1;
    level := n;
    LinkedTop(rows, i, e);
    LinkedRest(rows, i);
    entries[i] := Unlinked(entries[i]);
    assert entries[..] == Linked(rows, i)[i := Unlinked(rows[i])];
    assert entries[i].level == rows[i].level && entries[e] == Linked(rows, i)[e];
    if entries[i].level == level - 1 {
      if level == 0 {
        return false, level;
      }
      ParentAfterDrop(rows, i);
      e, level := entries[e].priv.top.value, level - 1;
    }
    if entries[i].level == level + 1 {
      if !entries[e].dir {
        return false, level;
      }
      LinkChild(entries, i, rows);
      return true, level + 1;
    }
    if entries[i].level == level {
      if level == 0 {
        return false, level;
      }
      LinkSibling(entries, i, e, rows);
      return true, level;
    }
    return false, level;
  }

  method LinkChild(entries: array<Entry>, i: nat, ghost rows: seq<Entry>)
    requires 0 < i < entries.Length == |rows| && rows[i].level == rows[i - 1].level + 1
    requires entries[..] == Linked(rows, i)[i := Unlinked(rows[i])]
    modifies entries
    ensures entries[..] == Linked(rows, i + 1)
  {
    LinkedChild(rows, i);
    SameChildStores(Linked(rows, i), rows[i], i);
    StoreChild(entries, i, i - 1);
  }

  lemma SameChildStores(s: seq<Entry>, row: Entry, i: nat)
    requires 0 < i < |s|
    ensures var was := s[i := Unlinked(row)];
      was[i - 1 := WithSub(was[i - 1], i)][i := WithTop(was[i], i - 1)] ==
      s[i - 1 := WithSub(s[i - 1], i)][i := WithTop(row, i - 1)]
  {
  }

  method LinkSibling(entries: array<Entry>, i: nat, e: nat, ghost rows: seq<Entry>)
    requires 0 < e < i < entries.Length == |rows| && AcceptsUpTo(rows, i)
    requires rows[i].level == rows[e].level <= rows[i - 1].level && Open(rows, e, i)
    requires Parent(rows, i) == Parent(rows, e)
    requires entries[..] == Linked(rows, i)[i := Unlinked(rows[i])]
    modifies entries
    ensures entries[..] == Linked(rows, i + 1)
  {
    PrefixAccepted(rows, e + 1, i);
    ParentOneUp(rows, e);
    LinkedTop(rows, i, e);
    var t := entries[e].priv.top.value;
    LinkedSibling(rows, i, e, t);
    SameStores(Linked(rows, i), rows[i], i, e, t);
    StoreSibling(entries, i, e, t);
  }

  lemma SameStores(s: seq<Entry>, row: Entry, i: nat, e: nat, t: nat)
    requires t < e < i < |s|
    ensures var was := s[i := Unlinked(row)];
      was[t := OneMoreSub(was[t])][i := WithTop(was[i], t)][e := WithNext(was[e], i)] ==
      s[t := OneMoreSub(s[t])][i := WithTop(row, t)][e := WithNext(s[e], i)]
  {
  }

  method StoreSibling(entries: array<Entry>, i: nat, e: nat, t: nat)
    requires t < e < i < entries.Length
    modifies entries
    ensures var was := old(entries[..]);
      entries[..] == was[t := OneMoreSub(was[t])][i := WithTop(was[i], t)][e := WithNext(was[e], i)]
  {
    entries[t] := OneMoreSub(entries[t]);
    entries[i] := WithTop(entries[i], t);
    entries[e] := WithNext(entries[e], i);
  }

  method StoreChild(entries: array<Entry>, i: nat, e: nat)
    requires e < i < entries.Length
    modifies entries
    ensures var was := old(entries[..]); entries[..] == was[e := WithSub(was[e], i)][i := WithTop(was[i], e)]
  {
    entries[e] := WithSub(entries[e], i);
    entries[i] := WithTop(entries[i], e);
  }

  // ---- What the links mean ----

  /** The rows met by following next links from `start`. */
  function Follow(rows: seq<Entry>, start: Option<nat>): (r: seq<nat>)
    requires start.Some? ==> start.value < |rows|
    decreases if start.Some? then |rows| - start.value else 0
  {
    if start.None? then [] else [start.value] + Follow(rows, NextIn(rows, start.value, |rows|))
  }

  function ChildrenBetween(rows: seq<Entry>, p: nat, k: nat, n: nat): (r: seq<nat>)
    requires n <= |rows|
  {
    if n <= k then [] else ChildrenBetween(rows, p, k, n - 1) + if Parent(rows, n - 1) == Some(p) then [n - 1] else []
  }

  lemma {:induction false} ChildrenSplit(rows: seq<Entry>, p: nat, k: nat, n: nat)
    requires k <= n <= |rows|
    ensures ChildrenIn(rows, p, n) == ChildrenIn(rows, p, k) + ChildrenBetween(rows, p, k, n)
  {
    if k < n {
      ChildrenSplit(rows, p, k, n - 1);
    }
  }

  lemma {:induction false} SkipToChild(rows: seq<Entry>, p: nat, k: nat, m: nat, n: nat)
    requires k <= m <= n <= |rows| && forall j | k <= j < m :: Parent(rows, j) != Some(p)
    ensures ChildrenBetween(rows, p, k, n) == ChildrenBetween(rows, p, m, n)
  {
    if m < n {
      SkipToChild(rows, p, k, m, n - 1);
    } else if k < n {
      SkipToChild(rows, p, k, m - 1, n - 1);
    }
  }

  lemma {:induction false} TakeChild(rows: seq<Entry>, p: nat, k: nat, n: nat)
    requires k < n <= |rows| && Parent(rows, k) == Some(p)
    ensures ChildrenBetween(rows, p, k, n) == [k] + ChildrenBetween(rows, p, k + 1, n)
  {
    if k + 1 < n {
      TakeChild(rows, p, k, n - 1);
    } else {
      assert ChildrenBetween(rows, p, k, k) == [];
    }
  }

  lemma NextIsNextChild(rows: seq<Entry>, p: nat, k: nat, m: nat)
    requires k < m < |rows| && Parent(rows, k) == Some(p) && NextIn(rows, k, |rows|) == Some(m)
    ensures Parent(rows, m) == Some(p)
    ensures forall j | k < j < m :: Parent(rows, j) != Some(p)
  {
    LastBelowSkips(rows, m, k, rows[m].level);
    forall j | k < j < m ensures Parent(rows, j) != Some(p) {
      assert rows[j].level > rows[k].level;
    }
  }

  lemma NoNextNoChild(rows: seq<Entry>, p: nat, k: nat, j: nat)
    requires k < j < |rows| && Parent(rows, k) == Some(p) && NextIn(rows, k, |rows|) == None
    requires rows[k].level == rows[p].level + 1 && (Parent(rows, j) == Some(p) ==> rows[j].level == rows[p].level + 1)
    ensures Parent(rows, j) != Some(p)
  {
    if Parent(rows, j) == Some(p) {
      SomeNext(rows, k, j);
    }
  }

  lemma {:induction false} SomeNext(rows: seq<Entry>, k: nat, j: nat)
    requires k < j < |rows| && rows[j].level == rows[k].level && forall x | k < x < j :: rows[x].level >= rows[k].level
    ensures NextIn(rows, k, |rows|).Some?
  {
    if !Open(rows, k, j) {
      var x :| k < x < j && rows[x].level <= rows[k].level;
      SomeNext(rows, k, x);
    }
  }

  lemma {:induction false} FollowFromChild(rows: seq<Entry>, p: nat, k: nat)
    requires Accepts(rows) && k < |rows| && Parent(rows, k) == Some(p)
    ensures Follow(rows, Some(k)) == ChildrenBetween(rows, p, k, |rows|)
    decreases |rows| - k
  {
    TakeChild(rows, p, k, |rows|);
    match NextIn(rows, k, |rows|)
    case Some(m) =>
      NextIsNextChild(rows, p, k, m);
      SkipToChild(rows, p, k + 1, m, |rows|);
      FollowFromChild(rows, p, m);
    case None =>
      ParentIsDirectoryAbove(rows, k);
      forall j | k < j < |rows| ensures Parent(rows, j) != Some(p) {
        ParentIsDirectoryAbove(rows, j);
        NoNextNoChild(rows, p, k, j);
      }
      SkipToChild(rows, p, k + 1, |rows|, |rows|);
  }

  lemma NoSubNoChild(rows: seq<Entry>, p: nat, j: nat)
    requires p + 1 <= j < |rows| && rows[p + 1].level <= rows[p].level
    ensures Parent(rows, j) != Some(p)
  {
    if Parent(rows, j) == Some(p) && j == p + 1 {
      assert false;
    }
  }

  /** Starting at the sub link and following next links meets exactly the rows whose parent is `p`, in table order. */
  lemma LinksListChildren(rows: seq<Entry>, p: nat)
    requires Accepts(rows) && p < |rows|
    ensures Follow(rows, SubIn(rows, p, |rows|)) == ChildrenIn(rows, p, |rows|)
  {
    var n := |rows|;
    NoSiblings(rows, p, p + 1);
    ChildrenSplit(rows, p, p + 1, n);
    if p + 1 < n {
      if rows[p + 1].level == rows[p].level + 1 {
        FollowFromChild(rows, p, p + 1);
      } else {
        assert FollowsOn(rows, p + 1);
        forall j | p < j < n ensures Parent(rows, j) != Some(p) {
          NoSubNoChild(rows, p, j);
        }
        SkipToChild(rows, p, p + 1, n, n);
      }
    }
  }

  /** The tree of an accepted table: the first row is its only root, and every other row's parent is the closest
      earlier directory exactly one level up. */
  lemma ParentIsDirectoryAbove(rows: seq<Entry>, i: nat)
    requires Accepts(rows) && i < |rows|
    ensures Parent(rows, i) == None <==> i == 0
    ensures i > 0 ==>
      var p := Parent(rows, i).value;
      && rows[p].dir && rows[p].level + 1 == rows[i].level
      && forall k | p < k < i :: rows[k].level >= rows[i].level
  {
    assert rows[..|rows|] == rows;
    PrefixAccepted(rows, i + 1, |rows|);
    ParentOneUp(rows, i);
  }
}
