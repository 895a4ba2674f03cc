module SkipList {
  // A skip list with duplicates. Nodes live in an explicit memory from which erase removes
  // them, so that following a link to a deleted node would be an error.

  type Ref = nat

  datatype Ptr = Null | To(ref: Ref)

  datatype Node = Node(val: int, right: Ptr, down: Ptr)

  // ------------------------------------------------------------- levels as sequences

  /** A node of a level, without its link to the right. */
  datatype Cell = Cell(ref: Ref, val: int, down: Ptr)

  predicate Sorted(cells: seq<Cell>)
  {
    forall i, j :: 0 <= i < j < |cells| ==> cells[i].val <= cells[j].val
  }

  predicate Below(cells: seq<Cell>, t: int)
  {
    forall i :: 0 <= i < |cells| ==> cells[i].val < t
  }

  predicate AtLeast(cells: seq<Cell>, t: int)
  {
    forall i :: 0 <= i < |cells| ==> cells[i].val >= t
  }

  /** The cells of the upper level lead down, in order, to different cells of the lower
      level with the same values. */
  predicate Embeds(upper: seq<Cell>, lower: seq<Cell>)
    decreases |lower|
  {
    || upper == []
    || (lower != [] && (Matches(upper, lower) || Embeds(upper, lower[1..])))
  }

  predicate Matches(upper: seq<Cell>, lower: seq<Cell>)
    requires upper != [] && lower != []
    decreases |lower|, 0
  {
    upper[0].down == To(lower[0].ref) && upper[0].val == lower[0].val && Embeds(upper[1..], lower[1..])
  }

  /** How many cells come before the first value that is not less than t. */
  function Cut(cells: seq<Cell>, t: int): (c: nat)
    ensures c <= |cells|
  {
    if cells == [] || cells[0].val >= t then 0 else 1 + Cut(cells[1..], t)
  }

  lemma {:induction false} CutSplits(cells: seq<Cell>, t: int)
    requires Sorted(cells)
    ensures forall i :: 0 <= i < Cut(cells, t) ==> cells[i].val < t
    ensures forall i :: Cut(cells, t) <= i < |cells| ==> cells[i].val >= t
    decreases |cells|
  {
    if cells != [] && cells[0].val < t {
      var rest := cells[1..];
      CutSplits(rest, t);
      assert forall i :: 0 < i < |cells| ==> cells[i] == rest[i - 1];
    }
  }

  /** The cut is where the walk to the right stops. */
  lemma CutIs(cells: seq<Cell>, t: int, j: nat)
    requires Sorted(cells) && j <= |cells|
    requires (j > 0 ==> cells[j - 1].val < t) && (j < |cells| ==> cells[j].val >= t)
    ensures Cut(cells, t) == j
  {
    CutSplits(cells, t);
  }

  /** The two sides of the cut, joined again. */
  lemma CutSides(cells: seq<Cell>, t: int)
    requires Sorted(cells)
    ensures var c := Cut(cells, t); Below(cells[..c], t) && AtLeast(cells[c..], t) && cells == cells[..c] + cells[c..]
  {
    CutSplits(cells, t);
  }

  function Values(cells: seq<Cell>): (vs: seq<int>)
    ensures |vs| == |cells| && forall i :: 0 <= i < |cells| ==> vs[i] == cells[i].val
  {
    seq(|cells|, i requires 0 <= i < |cells| => cells[i].val)
  }

  function Bag(cells: seq<Cell>): multiset<int>
  {
    multiset(Values(cells))
  }

  lemma BagJoins(a: seq<Cell>, b: seq<Cell>)
    ensures Bag(a + b) == Bag(a) + Bag(b)
  {
    assert Values(a + b) == Values(a) + Values(b);
  }

  lemma BagOne(x: Cell)
    ensures Bag([x]) == multiset{x.val}
  {
    assert Values([x]) == [x.val];
  }

  // -------------------------------------------------------------------- embeddings

  lemma {:induction false} EmbedsJoin(a: seq<Cell>, b: seq<Cell>, c: seq<Cell>, d: seq<Cell>)
    requires Embeds(a, b) && Embeds(c, d)
    ensures Embeds(a + c, b + d)
    decreases |b|
  {
    if b == [] {
      assert a == [] && a + c == c && b + d == d;
    } else {
      assert (b + d)[1..] == b[1..] + d;
      if a != [] && Matches(a, b) {
        EmbedsJoin(a[1..], b[1..], c, d);
        assert (a + c)[1..] == a[1..] + c;
        assert Matches(a + c, b + d);
      } else {
        EmbedsJoin(a, b[1..], c, d);
      }
    }
  }

  lemma {:induction false} EmbeddedValue(upper: seq<Cell>, lower: seq<Cell>, i: nat) returns (k: nat)
    requires Embeds(upper, lower) && i < |upper|
    ensures k < |lower| && upper[i].down == To(lower[k].ref) && upper[i].val == lower[k].val
    decreases |lower|
  {
    if Matches(upper, lower) {
      if i == 0 {
        k := 0;
      } else {
        var m := EmbeddedValue(upper[1..], lower[1..], i - 1);
        k := m + 1;
      }
    } else {
      var m := EmbeddedValue(upper, lower[1..], i);
      k := m + 1;
    }
  }

  /** Small values lead to small values, large ones to large ones. */
  lemma {:induction false} EmbedsSplit(a: seq<Cell>, c: seq<Cell>, b: seq<Cell>, d: seq<Cell>, t: int)
    requires Embeds(a + c, b + d) && Below(a, t) && Below(b, t) && AtLeast(c, t) && AtLeast(d, t)
    ensures Embeds(a, b) && Embeds(c, d)
    decreases |b|
  {
    if b == [] {
      assert b + d == d;
      if a + c != [] {
        var k := EmbeddedValue(a + c, d, 0);
        assert (a + c)[0].val >= t;
      }
      assert a == [] && a + c == c;
    } else {
      assert (b + d)[1..] == b[1..] + d;
      if a + c != [] && Matches(a + c, b + d) {
        assert (a + c)[0].val < t && a != [];
        assert (a + c)[1..] == a[1..] + c;
        EmbedsSplit(a[1..], c, b[1..], d, t);
        assert Matches(a, b);
      } else {
        EmbedsSplit(a, c, b[1..], d, t);
      }
    }
  }

  lemma {:induction false} InsertBelow(upper: seq<Cell>, b: seq<Cell>, n: Cell, d: seq<Cell>)
    requires Embeds(upper, b + d)
    ensures Embeds(upper, b + [n] + d)
    decreases |b|
  {
    if b == [] {
      assert b + d == d && (b + [n] + d)[1..] == d;
    } else {
      assert (b + d)[1..] == b[1..] + d && (b + [n] + d)[1..] == b[1..] + [n] + d;
      if upper != [] {
        if Matches(upper, b + d) {
          InsertBelow(upper[1..], b[1..], n, d);
          assert Matches(upper, b + [n] + d);
        } else {
          InsertBelow(upper, b[1..], n, d);
        }
      }
    }
  }

  lemma {:induction false} DropFirst(u: Cell, c: seq<Cell>, lower: seq<Cell>)
    requires Embeds([u] + c, lower)
    ensures Embeds(c, lower)
    decreases |lower|
  {
    if Matches([u] + c, lower) {
      assert ([u] + c)[1..] == c;
    } else {
      DropFirst(u, c, lower[1..]);
    }
  }

  lemma {:induction false} DropUpper(a: seq<Cell>, u: Cell, c: seq<Cell>, lower: seq<Cell>)
    requires Embeds(a + [u] + c, lower)
    ensures Embeds(a + c, lower)
    decreases |lower|
  {
    if a == [] {
      assert a + [u] + c == [u] + c && a + c == c;
      DropFirst(u, c, lower);
    } else if Matches(a + [u] + c, lower) {
      assert (a + [u] + c)[1..] == a[1..] + [u] + c && (a + c)[1..] == a[1..] + c;
      DropUpper(a[1..], u, c, lower[1..]);
      assert Matches(a + c, lower);
    } else {
      DropUpper(a, u, c, lower[1..]);
    }
  }

  /** Every value occurs in the lower level at least as often as in the upper one. */
  lemma {:induction false} EmbeddedBag(upper: seq<Cell>, lower: seq<Cell>)
    requires Embeds(upper, lower)
    ensures Bag(upper) <= Bag(lower)
    decreases |lower|
  {
    if upper == [] {
      assert Bag(upper) == multiset{};
    } else {
      assert lower == [lower[0]] + lower[1..] && upper == [upper[0]] + upper[1..];
      BagJoins([lower[0]], lower[1..]);
      if Matches(upper, lower) {
        EmbeddedBag(upper[1..], lower[1..]);
        BagJoins([upper[0]], upper[1..]);
        BagOne(upper[0]);
        BagOne(lower[0]);
      } else {
        EmbeddedBag(upper, lower[1..]);
      }
    }
  }

  // ---------------------------------------------------- insertion and removal in a level

  /** The new cell goes before all cells that are not less. */
  function With(cells: seq<Cell>, x: Cell): seq<Cell>
  {
    cells[..Cut(cells, x.val)] + [x] + cells[Cut(cells, x.val)..]
  }

  predicate Has(cells: seq<Cell>, t: int)
  {
    Cut(cells, t) < |cells| && cells[Cut(cells, t)].val == t
  }

  /** The first cell with the value goes, if there is one. */
  function Without(cells: seq<Cell>, t: int): seq<Cell>
  {
    var c := Cut(cells, t);
    if Has(cells, t) then cells[..c] + cells[c + 1..] else cells
  }

  lemma HasIff(cells: seq<Cell>, t: int)
    requires Sorted(cells)
    ensures Has(cells, t) <==> t in Bag(cells)
  {
    CutSplits(cells, t);
    var c := Cut(cells, t);
    if Has(cells, t) {
      assert Values(cells)[c] == t;
    } else {
      forall i | 0 <= i < |cells| ensures Values(cells)[i] != t {
        assert i >= c ==> cells[i].val >= cells[c].val;
      }
    }
  }

  lemma InsertSorts(cells: seq<Cell>, x: Cell)
    requires Sorted(cells)
    ensures Sorted(With(cells, x)) && Bag(With(cells, x)) == Bag(cells) + multiset{x.val}
  {
    var c := Cut(cells, x.val);
    CutSides(cells, x.val);
    SortedJoin(cells[..c], [x], x.val);
    SortedJoin(cells[..c] + [x], cells[c..], x.val);
    BagJoins(cells[..c], [x]);
    BagJoins(cells[..c] + [x], cells[c..]);
    BagJoins(cells[..c], cells[c..]);
    BagOne(x);
  }

  lemma SortedJoin(a: seq<Cell>, b: seq<Cell>, t: int)
    requires Sorted(a) && Sorted(b) && AtLeast(b, t) && forall i :: 0 <= i < |a| ==> a[i].val <= t
    ensures Sorted(a + b)
  {
  }

  lemma WithoutSorts(cells: seq<Cell>, t: int)
    requires Sorted(cells)
    ensures Sorted(Without(cells, t)) && Bag(Without(cells, t)) == Bag(cells) - multiset{t}
  {
    HasIff(cells, t);
    if Has(cells, t) {
      var c := Cut(cells, t);
      var a, x, b := cells[..c], cells[c], cells[c + 1..];
      assert cells == a + [x] + b;
      RemoveOne(a, x, b);
    }
  }

  lemma RemoveOne(a: seq<Cell>, x: Cell, b: seq<Cell>)
    requires Sorted(a + [x] + b)
    ensures Sorted(a + b) && Bag(a + b) == Bag(a + [x] + b) - multiset{x.val}
  {
    BagJoins(a, [x]);
    BagJoins(a + [x], b);
    BagJoins(a, b);
    BagOne(x);
    SortedWithout(a, x, b);
  }

  lemma SortedWithout(a: seq<Cell>, x: Cell, b: seq<Cell>)
    requires Sorted(a + [x] + b)
    ensures Sorted(a + b)
  {
    var all, left := a + [x] + b, a + b;
    assert forall i :: 0 <= i < |a| ==> left[i] == all[i];
    assert forall i :: |a| <= i < |left| ==> left[i] == all[i + 1];
  }

  /** A new cell on top of a new cell. */
  lemma EmbedsInsert(upper: seq<Cell>, u: Cell, lower: seq<Cell>, n: Cell)
    requires Sorted(upper) && Sorted(lower) && Embeds(upper, lower)
    requires u.val == n.val && u.down == To(n.ref)
    ensures Embeds(With(upper, u), With(lower, n))
  {
    var t := u.val;
    CutSides(upper, t);
    CutSides(lower, t);
    InsertBoth(upper[..Cut(upper, t)], u, upper[Cut(upper, t)..], lower[..Cut(lower, t)], n, lower[Cut(lower, t)..]);
  }

  lemma InsertBoth(a: seq<Cell>, u: Cell, c: seq<Cell>, b: seq<Cell>, n: Cell, d: seq<Cell>)
    requires Embeds(a + c, b + d) && u.val == n.val && u.down == To(n.ref)
    requires Below(a, u.val) && Below(b, u.val) && AtLeast(c, u.val) && AtLeast(d, u.val)
    ensures Embeds(a + [u] + c, b + [n] + d)
  {
    EmbedsSplit(a, c, b, d, u.val);
    EmbedsOne(u, [n], 0);
    EmbedsJoin(a, b, [u], [n]);
    EmbedsJoin(a + [u], b + [n], c, d);
  }

  lemma EmbedsInsertBelow(upper: seq<Cell>, lower: seq<Cell>, n: Cell)
    requires Embeds(upper, lower)
    ensures Embeds(upper, With(lower, n))
  {
    var q := Cut(lower, n.val);
    assert lower == lower[..q] + lower[q..];
    InsertBelow(upper, lower[..q], n, lower[q..]);
  }

  lemma {:induction false} EmbedsOne(u: Cell, lower: seq<Cell>, k: nat)
    requires k < |lower| && u.down == To(lower[k].ref) && u.val == lower[k].val
    ensures Embeds([u], lower)
    decreases k
  {
    if k == 0 {
      assert [u][1..] == [];
      assert Matches([u], lower);
    } else {
      EmbedsOne(u, lower[1..], k - 1);
    }
  }

  lemma EmbedsWithoutAbove(upper: seq<Cell>, lower: seq<Cell>, t: int)
    requires Embeds(upper, lower)
    ensures Embeds(Without(upper, t), lower)
  {
    if Has(upper, t) {
      var c := Cut(upper, t);
      assert upper == upper[..c] + [upper[c]] + upper[c + 1..];
      DropUpper(upper[..c], upper[c], upper[c + 1..], lower);
    }
  }

  /** The first cells with a value can go from both levels at once, although the one above
      need not stand on the one below: nothing that stays stands on what goes. */
  lemma EmbedsWithout(upper: seq<Cell>, lower: seq<Cell>, t: int)
    requires Sorted(upper) && Sorted(lower) && Embeds(upper, lower)
    ensures Embeds(Without(upper, t), Without(lower, t))
  {
    if Has(lower, t) {
      var p, q := Cut(upper, t), Cut(lower, t);
      CutSides(upper, t);
      CutSides(lower, t);
      assert lower[q..] == [lower[q]] + lower[q + 1..];
      RemoveBoth(upper[..p], upper[p..], lower[..q], lower[q], lower[q + 1..]);
      assert Without(upper, t) == upper[..p] + TailWithout(upper[p..], t);
    } else {
      EmbedsWithoutAbove(upper, lower, t);
    }
  }

  lemma RemoveBoth(a: seq<Cell>, c: seq<Cell>, b: seq<Cell>, n: Cell, rest: seq<Cell>)
    requires Embeds(a + c, b + ([n] + rest))
    requires Below(a, n.val) && Below(b, n.val) && AtLeast(c, n.val) && AtLeast([n] + rest, n.val)
    ensures Embeds(a + TailWithout(c, n.val), b + rest)
  {
    EmbedsSplit(a, c, b, [n] + rest, n.val);
    EmbedsTails(c, n, rest, n.val);
    EmbedsJoin(a, b, TailWithout(c, n.val), rest);
  }

  /** Drop the first cell if it has the value. */
  function TailWithout(cells: seq<Cell>, t: int): seq<Cell>
  {
    if cells != [] && cells[0].val == t then cells[1..] else cells
  }

  lemma EmbedsTails(upper: seq<Cell>, n: Cell, rest: seq<Cell>, t: int)
    requires n.val == t && Embeds(upper, [n] + rest)
    ensures Embeds(TailWithout(upper, t), rest)
  {
    assert ([n] + rest)[1..] == rest;
    if upper != [] && upper[0].val == t && !Matches(upper, [n] + rest) {
      assert upper == [upper[0]] + upper[1..];
      DropFirst(upper[0], upper[1..], rest);
    }
  }

  // -------------------------------------------------------------- levels in memory

  /** A level: its head node, where the head leads down, and the cells after it. */
  datatype Level = Level(head: Ref, below: Ptr, cells: seq<Cell>)

  /** Position 0 is the head, position j + 1 the cell j. */
  function RefAt(lv: Level, j: nat): Ref
    requires j <= |lv.cells|
  {
    if j == 0 then lv.head else lv.cells[j - 1].ref
  }

  function NodeAt(lv: Level, j: nat): Node
    requires j <= |lv.cells|
  {
    var right := if j < |lv.cells| then To(lv.cells[j].ref) else Null;
    if j == 0 then Node(0, right, lv.below) else Node(lv.cells[j - 1].val, right, lv.cells[j - 1].down)
  }

  predicate StoredAt(mem: map<Ref, Node>, lv: Level, j: nat)
    requires j <= |lv.cells|
  {
    RefAt(lv, j) in mem && mem[RefAt(lv, j)] == NodeAt(lv, j)
  }

  /** The nodes of the level are in memory, linked from left to right. */
  predicate Stored(mem: map<Ref, Node>, lv: Level)
  {
    forall j :: 0 <= j <= |lv.cells| ==> StoredAt(mem, lv, j)
  }

  predicate Distinct(lv: Level)
  {
    forall i, j :: 0 <= i < j <= |lv.cells| ==> RefAt(lv, i) != RefAt(lv, j)
  }

  /** `home` says on which level a node is. */
  predicate Homed(home: map<Ref, nat>, lv: Level, l: nat)
  {
    forall j :: 0 <= j <= |lv.cells| ==> RefAt(lv, j) in home && home[RefAt(lv, j)] == l
  }

  function Put(lv: Level, c: nat, x: Cell): Level
    requires c <= |lv.cells|
  {
    lv.(cells := lv.cells[..c] + [x] + lv.cells[c..])
  }

  function Cutout(lv: Level, c: nat): Level
    requires c < |lv.cells|
  {
    lv.(cells := lv.cells[..c] + lv.cells[c + 1..])
  }

  lemma PutRefs(lv: Level, c: nat, x: Cell, j: nat)
    requires c <= |lv.cells| && j <= |lv.cells| + 1
    ensures RefAt(Put(lv, c, x), j) == if j <= c then RefAt(lv, j) else if j == c + 1 then x.ref else RefAt(lv, j - 1)
  {
  }

  lemma CutoutRefs(lv: Level, c: nat, j: nat)
    requires c < |lv.cells| && j < |lv.cells|
    ensures RefAt(Cutout(lv, c), j) == if j <= c then RefAt(lv, j) else RefAt(lv, j + 1)
  {
  }

  /** Memory after linking a new node to the right of p. */
  function Linked(mem: map<Ref, Node>, p: Ref, x: Cell): map<Ref, Node>
    requires p in mem
  {
    mem[x.ref := Node(x.val, mem[p].right, x.down)][p := mem[p].(right := To(x.ref))]
  }

  /** Memory after unlinking and deleting the node r to the right of p. */
  function Unlinked(mem: map<Ref, Node>, p: Ref, r: Ref): map<Ref, Node>
    requires p in mem && r in mem
  {
    mem[p := mem[p].(right := mem[r].right)] - {r}
  }

  lemma LinkStores(mem: map<Ref, Node>, lv: Level, c: nat, x: Cell)
    requires Stored(mem, lv) && Distinct(lv) && c <= |lv.cells| && x.ref !in mem
    ensures StoredAt(mem, lv, c) && Stored(Linked(mem, RefAt(lv, c), x), Put(lv, c, x)) && Distinct(Put(lv, c, x))
  {
    assert StoredAt(mem, lv, c);
    var lv' := Put(lv, c, x);
    var mem' := Linked(mem, RefAt(lv, c), x);
    forall j | 0 <= j <= |lv'.cells| ensures StoredAt(mem', lv', j) {
      PutRefs(lv, c, x, j);
      if j <= c {
        assert StoredAt(mem, lv, j);
      } else if j > c + 1 {
        assert StoredAt(mem, lv, j - 1);
      }
    }
    forall i, j | 0 <= i < j <= |lv'.cells| ensures RefAt(lv', i) != RefAt(lv', j) {
      PutRefs(lv, c, x, i);
      PutRefs(lv, c, x, j);
      assert i <= |lv.cells| ==> StoredAt(mem, lv, i);
      assert j > 0 ==> StoredAt(mem, lv, j - 1);
    }
  }

  lemma UnlinkStores(mem: map<Ref, Node>, lv: Level, c: nat)
    requires Stored(mem, lv) && Distinct(lv) && c < |lv.cells|
    ensures StoredAt(mem, lv, c) && StoredAt(mem, lv, c + 1)
    ensures Stored(Unlinked(mem, RefAt(lv, c), lv.cells[c].ref), Cutout(lv, c)) && Distinct(Cutout(lv, c))
  {
    assert StoredAt(mem, lv, c) && StoredAt(mem, lv, c + 1);
    var lv' := Cutout(lv, c);
    var mem' := Unlinked(mem, RefAt(lv, c), lv.cells[c].ref);
    forall j | 0 <= j <= |lv'.cells| ensures StoredAt(mem', lv', j) {
      CutoutRefs(lv, c, j);
      var k := if j <= c then j else j + 1;
      assert StoredAt(mem, lv, k);
      assert k != c + 1 && RefAt(lv, c + 1) == lv.cells[c].ref;
    }
    forall i, j | 0 <= i < j <= |lv'.cells| ensures RefAt(lv', i) != RefAt(lv', j) {
      CutoutRefs(lv, c, i);
      CutoutRefs(lv, c, j);
    }
  }

  // ------------------------------------------------------------------- the whole list

  predicate LaidAt(mem: map<Ref, Node>, home: map<Ref, nat>, lv: Level, l: nat)
  {
    Stored(mem, lv) && Distinct(lv) && Homed(home, lv, l)
  }

  predicate OnLevel(lv: Level, r: Ref)
  {
    exists j :: 0 <= j <= |lv.cells| && RefAt(lv, j) == r
  }

  /** No node is lost: what is in memory is on its level. */
  predicate Found(home: map<Ref, nat>, levels: seq<Level>, r: Ref)
  {
    r in home && home[r] < |levels| && OnLevel(levels[home[r]], r)
  }

  /** All levels are in memory and nothing else is; level 0 is the bottom. Addresses from
      `next` on are free. */
  predicate Laid(mem: map<Ref, Node>, next: Ref, home: map<Ref, nat>, levels: seq<Level>)
  {
    && (forall r :: r in mem ==> r < next && Found(home, levels, r))
    && (forall l :: 0 <= l < |levels| ==> LaidAt(mem, home, levels[l], l))
  }

  predicate Grounded(cells: seq<Cell>)
  {
    forall i :: 0 <= i < |cells| ==> cells[i].down == Null
  }

  lemma GroundedInsert(cells: seq<Cell>, x: Cell)
    requires Grounded(cells) && x.down == Null
    ensures Grounded(With(cells, x))
  {
  }

  lemma GroundedWithout(cells: seq<Cell>, t: int)
    requires Grounded(cells)
    ensures Grounded(Without(cells, t))
  {
  }

  /** Links down: from the bottom nowhere, from any other level into the level below. */
  predicate ShapedAt(levels: seq<Level>, l: nat)
    requires l < |levels|
  {
    && Sorted(levels[l].cells)
    && if l == 0 then levels[0].below == Null && Grounded(levels[0].cells)
       else levels[l].below == To(levels[l - 1].head) && Embeds(levels[l].cells, levels[l - 1].cells)
  }

  predicate Shaped(levels: seq<Level>)
  {
    levels != [] && forall l :: 0 <= l < |levels| ==> ShapedAt(levels, l)
  }

  /** Changes to nodes of one level do not touch another. */
  lemma OtherLevel(mem: map<Ref, Node>, mem': map<Ref, Node>, home: map<Ref, nat>, home': map<Ref, nat>,
                   lv: Level, k: nat, l: nat)
    requires LaidAt(mem, home, lv, k) && k != l
    requires forall r :: r in mem && r in home && home[r] != l ==> r in mem' && mem'[r] == mem[r]
    requires forall r :: r in mem && r in home ==> r in home' && home'[r] == home[r]
    ensures LaidAt(mem', home', lv, k)
  {
    forall j | 0 <= j <= |lv.cells|
      ensures StoredAt(mem', lv, j) && RefAt(lv, j) in home' && home'[RefAt(lv, j)] == k
    {
      assert StoredAt(mem, lv, j);
    }
  }

  lemma OnLevelAfterPut(lv: Level, c: nat, x: Cell, r: Ref)
    requires c <= |lv.cells| && (r == x.ref || OnLevel(lv, r))
    ensures OnLevel(Put(lv, c, x), r)
  {
    if r == x.ref {
      PutRefs(lv, c, x, c + 1);
    } else {
      var j :| 0 <= j <= |lv.cells| && RefAt(lv, j) == r;
      PutRefs(lv, c, x, if j <= c then j else j + 1);
    }
  }

  lemma OnLevelAfterCutout(lv: Level, c: nat, r: Ref)
    requires c < |lv.cells| && r != lv.cells[c].ref && OnLevel(lv, r)
    ensures OnLevel(Cutout(lv, c), r)
  {
    var j :| 0 <= j <= |lv.cells| && RefAt(lv, j) == r;
    CutoutRefs(lv, c, if j <= c then j else j - 1);
  }

  lemma LaidInsert(mem: map<Ref, Node>, next: Ref, home: map<Ref, nat>, levels: seq<Level>, l: nat, c: nat, x: Cell)
    requires Laid(mem, next, home, levels) && l < |levels| && c <= |levels[l].cells| && x.ref == next
    ensures StoredAt(mem, levels[l], c)
    ensures Laid(Linked(mem, RefAt(levels[l], c), x), next + 1, home[next := l], levels[l := Put(levels[l], c, x)])
  {
    var lv, p := levels[l], RefAt(levels[l], c);
    assert LaidAt(mem, home, lv, l);
    LinkStores(mem, lv, c, x);
    var mem', home' := Linked(mem, p, x), home[next := l];
    assert Homed(home', Put(lv, c, x), l) by {
      forall j | 0 <= j <= |lv.cells| + 1
        ensures RefAt(Put(lv, c, x), j) in home' && home'[RefAt(Put(lv, c, x), j)] == l
      {
        PutRefs(lv, c, x, j);
      }
    }
    forall k | 0 <= k < |levels| && k != l ensures LaidAt(mem', home', levels[k], k) {
      OtherLevel(mem, mem', home, home', levels[k], k, l);
    }
    var levels' := levels[l := Put(lv, c, x)];
    forall r | r in mem' ensures r < next + 1 && Found(home', levels', r) {
      if r == next || home[r] == l {
        OnLevelAfterPut(lv, c, x, r);
      }
    }
  }

  lemma LaidRemove(mem: map<Ref, Node>, next: Ref, home: map<Ref, nat>, levels: seq<Level>, l: nat, c: nat)
    requires Laid(mem, next, home, levels) && l < |levels| && c < |levels[l].cells|
    ensures StoredAt(mem, levels[l], c) && StoredAt(mem, levels[l], c + 1)
    ensures Laid(Unlinked(mem, RefAt(levels[l], c), levels[l].cells[c].ref), next, home,
                 levels[l := Cutout(levels[l], c)])
  {
    var lv := levels[l];
    assert LaidAt(mem, home, lv, l);
    UnlinkStores(mem, lv, c);
    var mem' := Unlinked(mem, RefAt(lv, c), lv.cells[c].ref);
    assert Homed(home, Cutout(lv, c), l) by {
      forall j | 0 <= j < |lv.cells|
        ensures RefAt(Cutout(lv, c), j) in home && home[RefAt(Cutout(lv, c), j)] == l
      {
        CutoutRefs(lv, c, j);
      }
    }
    assert RefAt(lv, c + 1) == lv.cells[c].ref;
    forall k | 0 <= k < |levels| && k != l ensures LaidAt(mem', home, levels[k], k) {
      OtherLevel(mem, mem', home, home, levels[k], k, l);
    }
    var levels' := levels[l := Cutout(lv, c)];
    forall r | r in mem' ensures Found(home, levels', r) {
      if home[r] == l {
        OnLevelAfterCutout(lv, c, r);
      }
    }
  }

  /** A new top level with one cell. */
  lemma LaidOnTop(mem: map<Ref, Node>, next: Ref, home: map<Ref, nat>, levels: seq<Level>, x: Cell, below: Ptr)
    requires Laid(mem, next, home, levels) && x.ref == next
    ensures var l := |levels|;
            Laid(mem[next := Node(x.val, Null, x.down)][next + 1 := Node(0, To(next), below)], next + 2,
                 home[next := l][next + 1 := l], levels + [Level(next + 1, below, [x])])
  {
    var l := |levels|;
    var mem' := mem[next := Node(x.val, Null, x.down)][next + 1 := Node(0, To(next), below)];
    var home' := home[next := l][next + 1 := l];
    var top := Level(next + 1, below, [x]);
    assert StoredAt(mem', top, 0) && StoredAt(mem', top, 1);
    assert LaidAt(mem', home', top, l);
    var levels' := levels + [top];
    forall k | 0 <= k < |levels'| ensures LaidAt(mem', home', levels'[k], k) {
      if k < l {
        OtherLevel(mem, mem', home, home', levels[k], k, l);
      }
    }
    assert RefAt(top, 0) == next + 1 && RefAt(top, 1) == next;
    forall r | r in mem' ensures r < next + 2 && Found(home', levels', r) {
    }
  }

  // ---------------------------------------------- the levels after insert and erase

  /** The new cells of an insertion, bottom first, each standing on the one before. */
  predicate Tower(news: seq<Cell>, t: int)
  {
    forall k :: 0 <= k < |news| ==> news[k].val == t && news[k].down == TopOf(news[..k])
  }

  function TopOf(news: seq<Cell>): Ptr
  {
    if news == [] then Null else To(news[|news| - 1].ref)
  }

  /** The lowest levels have taken up the new cells. */
  function Raised(levels: seq<Level>, news: seq<Cell>): (r: seq<Level>)
    ensures |r| == |levels|
  {
    seq(|levels|, k requires 0 <= k < |levels| =>
      if k < |news| then levels[k].(cells := With(levels[k].cells, news[k])) else levels[k])
  }

  /** The levels from l up have lost their first cell with the value. */
  function Lowered(levels: seq<Level>, l: int, t: int): (r: seq<Level>)
    ensures |r| == |levels|
  {
    seq(|levels|, k requires 0 <= k < |levels| =>
      if k >= l then levels[k].(cells := Without(levels[k].cells, t)) else levels[k])
  }

  lemma RaisedShape(levels: seq<Level>, news: seq<Cell>, t: int)
    requires Shaped(levels) && Tower(news, t) && |news| <= |levels|
    ensures Shaped(Raised(levels, news))
  {
    forall l | 0 <= l < |levels| ensures ShapedAt(Raised(levels, news), l) {
      RaisedShapeAt(levels, news, t, l);
    }
  }

  lemma RaisedShapeAt(levels: seq<Level>, news: seq<Cell>, t: int, l: nat)
    requires Shaped(levels) && Tower(news, t) && |news| <= |levels| && l < |levels|
    ensures ShapedAt(Raised(levels, news), l)
  {
    assert ShapedAt(levels, l);
    if l < |news| {
      InsertSorts(levels[l].cells, news[l]);
    }
    if l > 0 {
      assert ShapedAt(levels, l - 1);
      if l < |news| {
        EmbedsInsert(levels[l].cells, news[l], levels[l - 1].cells, news[l - 1]);
      } else if l == |news| {
        EmbedsInsertBelow(levels[l].cells, levels[l - 1].cells, news[l - 1]);
      }
    } else if news != [] {
      assert news[0].down == Null;
      GroundedInsert(levels[0].cells, news[0]);
    }
  }

  /** With a cell in every level, one more level can stand on top. */
  lemma RaisedTop(levels: seq<Level>, news: seq<Cell>, t: int, x: Cell, head: Ref)
    requires Shaped(levels) && Tower(news, t) && |news| == |levels|
    requires x.val == t && x.down == To(news[|news| - 1].ref)
    ensures Shaped(Raised(levels, news) + [Level(head, To(levels[|levels| - 1].head), [x])])
  {
    RaisedShape(levels, news, t);
    var n := |levels|;
    var r := Raised(levels, news);
    var lower := r[n - 1].cells;
    assert lower[Cut(levels[n - 1].cells, t)] == news[n - 1];
    EmbedsOne(x, lower, Cut(levels[n - 1].cells, t));
    var all := r + [Level(head, To(levels[n - 1].head), [x])];
    forall l | 0 <= l < |all| ensures ShapedAt(all, l) {
      if l < n {
        assert ShapedAt(r, l);
      }
    }
  }

  lemma LoweredShape(levels: seq<Level>, t: int)
    requires Shaped(levels)
    ensures Shaped(Lowered(levels, 0, t))
  {
    forall l | 0 <= l < |levels| ensures ShapedAt(Lowered(levels, 0, t), l) {
      LoweredShapeAt(levels, t, l);
    }
  }

  lemma LoweredShapeAt(levels: seq<Level>, t: int, l: nat)
    requires Shaped(levels) && l < |levels|
    ensures ShapedAt(Lowered(levels, 0, t), l)
  {
    assert ShapedAt(levels, l);
    WithoutSorts(levels[l].cells, t);
    if l > 0 {
      LoweredPair(levels, t, l);
    } else {
      GroundedWithout(levels[0].cells, t);
      assert Lowered(levels, 0, t)[0] == levels[0].(cells := Without(levels[0].cells, t));
    }
  }

  lemma LoweredPair(levels: seq<Level>, t: int, l: nat)
    requires Shaped(levels) && 0 < l < |levels|
    ensures var r := Lowered(levels, 0, t);
            r[l].below == To(r[l - 1].head) && Embeds(r[l].cells, r[l - 1].cells)
  {
    assert ShapedAt(levels, l) && ShapedAt(levels, l - 1);
    EmbedsWithout(levels[l].cells, levels[l - 1].cells, t);
  }

  /** Whatever is in some level is in the bottom. */
  lemma {:induction false} BottomHasAll(levels: seq<Level>, l: nat)
    requires Shaped(levels) && l < |levels|
    ensures Bag(levels[l].cells) <= Bag(levels[0].cells)
    decreases l
  {
    if l > 0 {
      assert ShapedAt(levels, l);
      EmbeddedBag(levels[l].cells, levels[l - 1].cells);
      BottomHasAll(levels, l - 1);
    }
  }

  /** From a node below t, or a head, the link down leads to such a node of the next level. */
  lemma Descend(levels: seq<Level>, l: nat, c: nat, t: int) returns (k: nat)
    requires Shaped(levels) && 0 < l < |levels| && c <= |levels[l].cells|
    requires c > 0 ==> levels[l].cells[c - 1].val < t
    ensures k <= |levels[l - 1].cells| && (k > 0 ==> levels[l - 1].cells[k - 1].val < t)
    ensures NodeAt(levels[l], c).down == To(RefAt(levels[l - 1], k))
  {
    assert ShapedAt(levels, l);
    if c == 0 {
      k := 0;
    } else {
      var i := EmbeddedValue(levels[l].cells, levels[l - 1].cells, c - 1);
      k := i + 1;
    }
  }

  lemma BottomEnds(levels: seq<Level>, c: nat)
    requires Shaped(levels) && c <= |levels[0].cells|
    ensures NodeAt(levels[0], c).down == Null
  {
    assert ShapedAt(levels, 0);
  }

  // --------------------------------------------------------------------- the class

  class SkipList {
    var mem: map<Ref, Node>
    var next: Ref
    var head: Ref
    ghost var levels: seq<Level>
    ghost var home: map<Ref, nat>

    ghost predicate Valid()
      reads this
    {
      Shaped(levels) && Laid(mem, next, home, levels) && head == levels[|levels| - 1].head
    }

    /** The values held, with their multiplicities. */
    ghost function Contents(): multiset<int>
      requires levels != []
      reads this
    {
      Bag(levels[0].cells)
    }

    constructor ()
      ensures Valid() && Contents() == multiset{}
    {
      mem := map[0 := Node(0, Null, Null)];
      next := 1;
      head := 0;
      levels := [Level(0, Null, [])];
      home := map[0 := 0];
      assert RefAt(Level(0, Null, []), 0) == 0;
    }

    /** The inner loop of all three operations: walk right while the next value is less. */
    method WalkRight(start: Ref, target: int, ghost lv: Level, ghost at: nat) returns (p: Ref)
      requires Stored(mem, lv) && Sorted(lv.cells) && at <= |lv.cells| && start == RefAt(lv, at)
      requires at > 0 ==> lv.cells[at - 1].val < target
      ensures p == RefAt(lv, Cut(lv.cells, target)) && p in mem
    {
      p := start;
      ghost var j := at;
      assert StoredAt(mem, lv, j);
      assert j < |lv.cells| ==> StoredAt(mem, lv, j + 1);
      while mem[p].right.To? && mem[mem[p].right.ref].val < target
        invariant j <= |lv.cells| && p == RefAt(lv, j) && StoredAt(mem, lv, j)
        invariant mem[p].right.To? ==> mem[p].right.ref in mem
        invariant j > 0 ==> lv.cells[j - 1].val < target
        decreases |lv.cells| - j
      {
        p := mem[p].right.ref;
        j := j + 1;
        assert StoredAt(mem, lv, j);
        assert j < |lv.cells| ==> StoredAt(mem, lv, j + 1);
      }
      assert j < |lv.cells| ==> StoredAt(mem, lv, j + 1);
      CutIs(lv.cells, target, j);
    }

    /** What stands to the right of the cut. */
    lemma AtCut(lv: Level, target: int)
      requires Stored(mem, lv)
      ensures var c := Cut(lv.cells, target);
              && RefAt(lv, c) in mem && mem[RefAt(lv, c)] == NodeAt(lv, c)
              && (mem[RefAt(lv, c)].right.To? <==> c < |lv.cells|)
              && (c < |lv.cells| ==>
                    && mem[RefAt(lv, c)].right == To(lv.cells[c].ref)
                    && lv.cells[c].ref in mem && mem[lv.cells[c].ref].val == lv.cells[c].val)
    {
      var c := Cut(lv.cells, target);
      assert StoredAt(mem, lv, c);
      assert c < |lv.cells| ==> StoredAt(mem, lv, c + 1);
    }

    method Search(target: int) returns (found: bool)
      requires Valid()
      ensures found <==> target in Contents()
    {
      var curr := To(head);
      ghost var l, j := |levels| - 1, 0;
      while curr.To?
        invariant -1 <= l < |levels| && (curr.Null? <==> l == -1)
        invariant l >= 0 ==> Standing(levels, l, j, target, curr)
        invariant l == -1 ==> target !in Contents()
        decreases l
      {
        ghost var lv := levels[l];
        assert LaidAt(mem, home, lv, l) && ShapedAt(levels, l);
        var p := WalkRight(curr.ref, target, lv, j);
        AtCut(lv, target);
        HasIff(lv.cells, target);
        if mem[p].right.To? && mem[mem[p].right.ref].val == target {
          BottomHasAll(levels, l);
          return true;
        }
        j := StepDown(levels, l, target);
        curr := mem[p].down;
        l := l - 1;
      }
      return false;
    }

    /** First part of insert: the node before the cut on every level, top first. */
    method InsertPoints(target: int) returns (points: seq<Ref>)
      requires Valid()
      ensures AreCuts(points, levels, target)
    {
      var curr := To(head);
      ghost var l, j := |levels| - 1, 0;
      points := [];
      while curr.To?
        invariant -1 <= l < |levels| && (curr.Null? <==> l == -1)
        invariant l >= 0 ==> Standing(levels, l, j, target, curr)
        invariant |points| == |levels| - 1 - l
        invariant forall k :: l < k < |levels| ==> IsCut(points, levels, k, target)
        decreases l
      {
        ghost var lv := levels[l];
        assert LaidAt(mem, home, lv, l) && ShapedAt(levels, l);
        var p := WalkRight(curr.ref, target, lv, j);
        AtCut(lv, target);
        ghost var before := points;
        points := points + [p];
        forall k | l <= k < |levels| ensures IsCut(points, levels, k, target) {
          assert k > l ==> IsCut(before, levels, k, target);
        }
        j := StepDown(levels, l, target);
        curr := mem[p].down;
        l := l - 1;
      }
    }

    /** Link a new node to the right of p. */
    method LinkNew(p: Ref, target: int, down: Ptr, ghost l: nat) returns (r: Ref)
      requires Laid(mem, next, home, levels) && l < |levels| && p == RefAt(levels[l], Cut(levels[l].cells, target))
      modifies this`mem, this`next, this`home, this`levels
      ensures Laid(mem, next, home, levels)
      ensures var lv := old(levels)[l];
              levels == old(levels)[l := lv.(cells := With(lv.cells, Cell(r, target, down)))]
    {
      r := next;
      LaidInsert(mem, next, home, levels, l, Cut(levels[l].cells, target), Cell(r, target, down));
      mem := mem[r := Node(target, mem[p].right, down)];
      mem := mem[p := mem[p].(right := To(r))];
      next := next + 1;
      home := home[r := l];
      levels := levels[l := levels[l].(cells := With(levels[l].cells, Cell(r, target, down)))];
    }

    /** While a tower is being built on the levels `was`: the levels up to |news| have taken
        up their new cells, and `points` are the places on the levels above. */
    ghost predicate Building(was: seq<Level>, news: seq<Cell>, pts: seq<Ref>, points: seq<Ref>, target: int, down: Ptr)
      reads this
    {
      && Laid(mem, next, home, levels) && levels == Raised(was, news)
      && |points| + |news| == |was| && points <= pts
      && Tower(news, target) && down == TopOf(news)
    }

    /** One pass of the second loop of insert. */
    method LinkOne(points: seq<Ref>, target: int, below: Ptr, ghost was: seq<Level>, ghost pts: seq<Ref>, ghost cells: seq<Cell>)
      returns (rest: seq<Ref>, down: Ptr, ghost news: seq<Cell>)
      requires Building(was, cells, pts, points, target, below) && AreCuts(pts, was, target) && points != []
      modifies this`mem, this`next, this`home, this`levels
      ensures Building(was, news, pts, rest, target, down) && |news| == |cells| + 1 && |rest| == |points| - 1
    {
      var left := points[|points| - 1];
      rest := points[..|points| - 1];
      assert IsCut(pts, was, |cells|, target);
      var r := LinkNew(left, target, below, |cells|);
      RaiseOne(was, cells, Cell(r, target, below), target);
      news := cells + [Cell(r, target, below)];
      down := To(r);
    }

    /** Second part of insert: link new nodes from the bottom up while the coin says so. */
    method LinkUpwards(pts: seq<Ref>, target: int, coin: nat -> bool)
      returns (up: bool, down: Ptr, ghost news: seq<Cell>)
      requires Valid() && AreCuts(pts, levels, target)
      modifies this`mem, this`next, this`home, this`levels
      ensures Laid(mem, next, home, levels) && levels == Raised(old(levels), news)
      ensures Tower(news, target) && 0 < |news| <= |levels| && down == TopOf(news)
      ensures Climbs(coin, |levels|, |news| - 1) && (up <==> Climbs(coin, |levels|, |news|))
      ensures up ==> |news| == |levels|
    {
      ghost var was, n := levels, |levels|;
      var points := pts;
      news := [];
      up, down := true, Null;
      assert Raised(levels, []) == levels;
      while |points| > 0 && up
        invariant Building(was, news, pts, points, target, down) && |news| + |points| == n
        invariant (news != [] ==> Climbs(coin, n, |news| - 1)) && (up <==> Climbs(coin, n, |news|))
        decreases |points|
      {
        points, down, news := LinkOne(points, target, down, was, pts, news);
        up := coin(|points|);
        ClimbsOn(coin, n, |news| - 1);
      }
    }

    /** Last part of insert: an extra level on top for the new tower alone. */
    method AddTop(target: int, down: Ptr, ghost was: seq<Level>, ghost news: seq<Cell>)
      requires Laid(mem, next, home, levels) && levels == Raised(was, news) && Shaped(was)
      requires Tower(news, target) && |news| == |was| && down == TopOf(news) && head == was[|was| - 1].head
      modifies this
      ensures Valid() && levels == Inserted(was, news, true, Level(old(next) + 1, To(old(head)), [Cell(old(next), target, down)]))
    {
      var temp, top := next, next + 1;
      LaidOnTop(mem, next, home, levels, Cell(temp, target, down), To(head));
      RaisedTop(was, news, target, Cell(temp, target, down), top);
      mem := mem[temp := Node(target, Null, down)];
      mem := mem[top := Node(0, To(temp), To(head))];
      next := next + 2;
      home := home[temp := |levels|][top := |levels|];
      levels := levels + [Level(top, To(head), [Cell(temp, target, down)])];
      head := top;
    }

    method Insert(target: int, coin: nat -> bool)
      requires Valid()
      modifies this
      ensures Valid() && Contents() == old(Contents()) + multiset{target}
      ensures Grown(old(levels), levels, target, coin)
    {
      ghost var was := levels;
      var points := InsertPoints(target);
      var up, down, news := LinkUpwards(points, target, coin);
      ghost var top := Level(next + 1, To(head), [Cell(next, target, down)]);
      InsertedBags(was, news, target, coin, up, top);
      BottomGains(was, Inserted(was, news, up, top), target, coin);
      if up {
        AddTop(target, down, was, news);
      } else {
        NoTop(was, news, top);
        Settled(was, news, target);
      }
    }

    /** Without an extra level the tower stands as it is. */
    lemma Settled(was: seq<Level>, news: seq<Cell>, target: int)
      requires Laid(mem, next, home, levels) && levels == Raised(was, news) && Shaped(was)
      requires Tower(news, target) && |news| <= |was| && head == was[|was| - 1].head
      ensures Valid()
    {
      RaisedShape(was, news, target);
    }

    /** Unlink and delete the node to the right of p. */
    method UnlinkNext(p: Ref, target: int, ghost l: nat)
      requires Laid(mem, next, home, levels) && l < |levels| && Has(levels[l].cells, target)
      requires p == RefAt(levels[l], Cut(levels[l].cells, target))
      modifies this`mem, this`levels
      ensures Laid(mem, next, home, levels)
      ensures var lv := old(levels)[l];
              levels == old(levels)[l := lv.(cells := Without(lv.cells, target))]
      ensures p in old(mem) && p in mem && mem[p].down == old(mem)[p].down
    {
      ghost var c := Cut(levels[l].cells, target);
      LaidRemove(mem, next, home, levels, l, c);
      assert LaidAt(mem, home, levels[l], l);
      assert RefAt(levels[l], c) != RefAt(levels[l], c + 1);
      var temp := mem[p].right.ref;
      mem := mem[p := mem[p].(right := mem[temp].right)];
      mem := mem - {temp};
      levels := levels[l := levels[l].(cells := Without(levels[l].cells, target))];
    }

    /** One level of erase: remove the first node with the value, and go down. */
    method EraseOnLevel(curr: Ref, target: int, ghost was: seq<Level>, ghost l: nat, ghost j: nat)
      returns (hit: bool, down: Ptr, ghost k: nat)
      requires Shaped(was) && Standing(was, l, j, target, To(curr))
      requires Laid(mem, next, home, levels) && levels == Lowered(was, l + 1, target)
      modifies this`mem, this`levels
      ensures Laid(mem, next, home, levels) && levels == Lowered(was, l, target)
      ensures hit == Has(was[l].cells, target)
      ensures if l == 0 then down == Null else Standing(was, l - 1, k, target, down)
    {
      assert levels[l] == was[l] && LaidAt(mem, home, levels[l], l) && ShapedAt(was, l);
      var p := WalkRight(curr, target, was[l], j);
      AtCut(was[l], target);
      LowerOne(was, l, target);
      k := StepDown(was, l, target);
      hit := mem[p].right.To? && mem[mem[p].right.ref].val == target;
      if hit {
        UnlinkNext(p, target, l);
      }
      down := mem[p].down;
    }

    /** The loop of erase, from the top level down. */
    method Sweep(target: int) returns (found: bool)
      requires Valid()
      modifies this`mem, this`levels
      ensures Laid(mem, next, home, levels) && levels == Lowered(old(levels), 0, target)
      ensures found == AtBottom(old(levels), target)
    {
      ghost var was := levels;
      var curr := To(head);
      ghost var l, j := |levels| - 1, 0;
      found := false;
      StartSweep(was, target);
      while curr.To?
        invariant Laid(mem, next, home, levels) && Sweeping(was, levels, l, j, target, curr, found)
        decreases l
      {
        var hit, down, k := EraseOnLevel(curr.ref, target, was, l, j);
        SweepStep(was, l, target, found, hit, down, k);
        if hit {
          found := true;
        }
        curr, l, j := down, l - 1, k;
      }
    }

    /** On every level the first node with the value goes; the bottom loses exactly one. */
    method Erase(target: int) returns (found: bool)
      requires Valid()
      modifies this`mem, this`levels
      ensures Valid() && found == (target in old(Contents()))
      ensures Contents() == old(Contents()) - multiset{target}
    {
      LoweredWorks(levels, target);
      found := Sweep(target);
    }
  }

  predicate AtBottom(levels: seq<Level>, t: int)
  {
    levels != [] && t in Bag(levels[0].cells)
  }

  /** The state of erase before level l; at the end l is -1. */
  predicate Sweeping(was: seq<Level>, levels: seq<Level>, l: int, j: nat, t: int, curr: Ptr, found: bool)
  {
    && -1 <= l < |was| && levels == Lowered(was, l + 1, t)
    && (if l == -1 then curr == Null && found == AtBottom(was, t)
        else Standing(was, l, j, t, curr) && (found ==> AtBottom(was, t)))
  }

  lemma StartSweep(levels: seq<Level>, t: int)
    requires levels != []
    ensures Sweeping(levels, levels, |levels| - 1, 0, t, To(levels[|levels| - 1].head), false)
  {
    assert Lowered(levels, |levels|, t) == levels;
  }

  lemma SweepStep(was: seq<Level>, l: nat, t: int, found: bool, hit: bool, down: Ptr, k: nat)
    requires Shaped(was) && l < |was| && (found ==> AtBottom(was, t)) && hit == Has(was[l].cells, t)
    requires if l == 0 then down == Null else Standing(was, l - 1, k, t, down)
    ensures Sweeping(was, Lowered(was, l, t), l - 1, k, t, down, found || hit)
  {
    assert ShapedAt(was, l);
    HasIff(was[l].cells, t);
    BottomHasAll(was, l);
  }

  lemma LoweredWorks(levels: seq<Level>, t: int)
    requires Shaped(levels)
    ensures Shaped(Lowered(levels, 0, t))
    ensures Bag(Lowered(levels, 0, t)[0].cells) == Bag(levels[0].cells) - multiset{t}
    ensures Lowered(levels, 0, t)[|levels| - 1].head == levels[|levels| - 1].head
  {
    LoweredShape(levels, t);
    LoweredBottom(levels, t);
  }

  lemma LoweredBottom(levels: seq<Level>, t: int)
    requires Shaped(levels)
    ensures Bag(Lowered(levels, 0, t)[0].cells) == Bag(levels[0].cells) - multiset{t}
  {
    assert ShapedAt(levels, 0);
    WithoutSorts(levels[0].cells, t);
  }

  lemma LowerOne(levels: seq<Level>, l: nat, t: int)
    requires l < |levels|
    ensures Lowered(levels, l, t) ==
            Lowered(levels, l + 1, t)[l := levels[l].(cells := Without(levels[l].cells, t))]
    ensures !Has(levels[l].cells, t) ==> Lowered(levels, l, t) == Lowered(levels, l + 1, t)
  {
  }

  /** points[..] lists the top level first. */
  predicate IsCut(points: seq<Ref>, levels: seq<Level>, l: nat, t: int)
    requires l < |levels|
  {
    var k := |levels| - 1 - l;
    k < |points| && points[k] == RefAt(levels[l], Cut(levels[l].cells, t))
  }

  predicate AreCuts(points: seq<Ref>, levels: seq<Level>, t: int)
  {
    |points| == |levels| && forall l :: 0 <= l < |levels| ==> IsCut(points, levels, l, t)
  }

  lemma RaiseOne(levels: seq<Level>, news: seq<Cell>, x: Cell, t: int)
    requires Tower(news, t) && |news| < |levels| && x.val == t && x.down == TopOf(news)
    ensures Tower(news + [x], t) && TopOf(news + [x]) == To(x.ref)
    ensures var lv := levels[|news|];
            Raised(levels, news + [x]) == Raised(levels, news)[|news| := lv.(cells := With(lv.cells, x))]
  {
    var more := news + [x];
    forall k | 0 <= k < |more| ensures more[k].val == t && more[k].down == TopOf(more[..k]) {
      assert more[..k] == news[..k];
    }
  }

  lemma LevelGrows(levels: seq<Level>, news: seq<Cell>, t: int, l: nat)
    requires Shaped(levels) && Tower(news, t) && l < |levels|
    ensures Bag(Raised(levels, news)[l].cells) ==
            Bag(levels[l].cells) + if l < |news| then multiset{t} else multiset{}
  {
    assert ShapedAt(levels, l);
    if l < |news| {
      assert news[l].val == t;
      InsertSorts(levels[l].cells, news[l]);
    }
  }

  function BagAt(levels: seq<Level>, l: int): multiset<int>
  {
    if 0 <= l < |levels| then Bag(levels[l].cells) else multiset{}
  }

  lemma ClimbsOn(coin: nat -> bool, n: nat, k: nat)
    requires k < n
    ensures Climbs(coin, n, k + 1) <==> Climbs(coin, n, k) && coin(n - k - 1)
  {
  }

  /** The levels after an insertion. */
  function Inserted(levels: seq<Level>, news: seq<Cell>, up: bool, top: Level): seq<Level>
  {
    Raised(levels, news) + if up then [top] else []
  }

  /** Each level gains the value exactly if the coin led up to it. */
  ghost predicate Grown(was: seq<Level>, levels: seq<Level>, t: int, coin: nat -> bool)
  {
    && |levels| == |was| + (if Climbs(coin, |was|, |was|) then 1 else 0)
    && forall l :: 0 <= l < |levels| ==>
         Bag(levels[l].cells) == BagAt(was, l) + if Climbs(coin, |was|, l) then multiset{t} else multiset{}
  }

  lemma InsertedBags(was: seq<Level>, news: seq<Cell>, t: int, coin: nat -> bool, up: bool, top: Level)
    requires Shaped(was) && Tower(news, t) && 0 < |news| <= |was| && (up ==> |news| == |was|)
    requires Climbs(coin, |was|, |news| - 1) && (up <==> Climbs(coin, |was|, |news|))
    requires |top.cells| == 1 && top.cells[0].val == t
    ensures Grown(was, Inserted(was, news, up, top), t, coin)
  {
    var levels := Inserted(was, news, up, top);
    assert top.cells == [top.cells[0]];
    BagOne(top.cells[0]);
    forall l | 0 <= l < |levels|
      ensures Bag(levels[l].cells) == BagAt(was, l) + if Climbs(coin, |was|, l) then multiset{t} else multiset{}
    {
      assert l < |was| ==> levels[l] == Raised(was, news)[l];
      if l < |was| {
        LevelGrows(was, news, t, l);
      }
      assert Climbs(coin, |was|, l) <==> l < |news| || up;
    }
  }

  lemma BottomGains(was: seq<Level>, levels: seq<Level>, t: int, coin: nat -> bool)
    requires was != [] && Grown(was, levels, t, coin)
    ensures levels != [] && Bag(levels[0].cells) == Bag(was[0].cells) + multiset{t}
  {
    assert Climbs(coin, |was|, 0);
  }

  lemma NoTop(was: seq<Level>, news: seq<Cell>, top: Level)
    ensures Inserted(was, news, false, top) == Raised(was, news)
  {
  }

  /** With n levels, every flip before level k has said to go on. Flips are numbered by the
      levels still ahead. */
  predicate Climbs(coin: nat -> bool, n: nat, k: nat)
  {
    forall j: nat :: n - k <= j < n ==> coin(j)
  }

  /** curr is the node at position j of level l, and its value is below t, or it is a head. */
  predicate Standing(levels: seq<Level>, l: nat, j: nat, t: int, curr: Ptr)
  {
    && l < |levels| && j <= |levels[l].cells| && curr == To(RefAt(levels[l], j))
    && (j > 0 ==> levels[l].cells[j - 1].val < t)
  }

  lemma StepDown(levels: seq<Level>, l: nat, t: int) returns (k: nat)
    requires Shaped(levels) && l < |levels|
    ensures var down := NodeAt(levels[l], Cut(levels[l].cells, t)).down;
            if l == 0 then down == Null else Standing(levels, l - 1, k, t, down)
  {
    var c := Cut(levels[l].cells, t);
    assert ShapedAt(levels, l);
    CutSplits(levels[l].cells, t);
    k := 0;
    if l == 0 {
      BottomEnds(levels, c);
    } else {
      k := Descend(levels, l, c, t);
    }
  }

  // ---------------------------------------------------------------------- whole runs

  datatype Operation = Insertion(value: int) | Erasure(value: int)

  /** What a list holds after a run of operations, as the methods promise it. */
  function HeldAfter(run: seq<Operation>): multiset<int>
  {
    if run == [] then multiset{} else Applied(HeldAfter(run[..|run| - 1]), run[|run| - 1])
  }

  function Applied(held: multiset<int>, op: Operation): multiset<int>
  {
    if op.Insertion? then held + multiset{op.value} else held - multiset{op.value}
  }

  function Insertions(run: seq<Operation>, t: int): nat
  {
    if run == [] then 0
    else Insertions(run[..|run| - 1], t) + if run[|run| - 1] == Insertion(t) then 1 else 0
  }

  /** The erasures of t that found it. */
  function Erasures(run: seq<Operation>, t: int): nat
  {
    if run == [] then 0
    else
      var front := run[..|run| - 1];
      Erasures(front, t) + if run[|run| - 1] == Erasure(t) && t in HeldAfter(front) then 1 else 0
  }

  /** A value is held as often as it was inserted more often than erased with success, so
      search finds it exactly when that number is positive. */
  lemma {:induction false} HeldCounts(run: seq<Operation>, t: int)
    ensures HeldAfter(run)[t] == Insertions(run, t) - Erasures(run, t)
    ensures t in HeldAfter(run) <==> Insertions(run, t) > Erasures(run, t)
    decreases |run|
  {
    if run != [] {
      HeldCounts(run[..|run| - 1], t);
    }
  }

  method PerformOne(list: SkipList, op: Operation, coin: nat -> bool)
    requires list.Valid()
    modifies list
    ensures list.Valid() && list.Contents() == Applied(old(list.Contents()), op)
  {
    if op.Insertion? {
      list.Insert(op.value, coin);
    } else {
      var found := list.Erase(op.value);
    }
  }

  /** Any run of operations on a new list, whatever the coin flips. */
  method Perform(run: seq<Operation>, coins: nat -> nat -> bool) returns (list: SkipList)
    ensures list.Valid() && list.Contents() == HeldAfter(run)
  {
    list := new SkipList();
    for i := 0 to |run|
      invariant fresh(list) && list.Valid() && list.Contents() == HeldAfter(run[..i])
    {
      assert run[..i + 1][..i] == run[..i];
      PerformOne(list, run[i], coins(i));
    }
    assert run[..|run|] == run;
  }
}
