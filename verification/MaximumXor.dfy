module MaximumXor {
  // A trie over the 32 bits of int values, most significant first, and the greedy search
  // for the best XOR partner.

  import opened Bits32
  import Sets

  // ---------------------------------------------------------------- the greedy choice

  /** What a walk along t scores against num: the XOR of the bits walked so far. */
  function Score(num: int, t: Bits): nat
    requires |t| <= 32
  {
    Value(XorBits(BitsOf(num)[..|t|], t))
  }

  lemma ScoreStep(num: int, t: Bits, c: bool)
    requires |t| < 32
    ensures Score(num, t + [c]) == 2 * Score(num, t) + if BitsOf(num)[|t|] != c then 1 else 0
  {
    var k, n := |t|, BitsOf(num);
    var s := XorBits(n[..k + 1], t + [c]);
    assert s[..k] == XorBits(n[..k], t);
  }

  lemma ScoreInjective(num: int, t: Bits, u: Bits)
    requires |t| == |u| <= 32 && Score(num, t) == Score(num, u)
    ensures t == u
  {
    var n := BitsOf(num)[..|t|];
    ValueInjective(XorBits(n, t), XorBits(n, u));
    forall j | 0 <= j < |t| ensures t[j] == u[j] {
      assert XorBits(n, t)[j] == XorBits(n, u)[j];
    }
  }

  lemma ScoreOfAll(num: int, m: int)
    ensures Score(num, BitsOf(m)) == UnsignedXor(num, m)
  {
    assert BitsOf(num)[..32] == BitsOf(num);
  }

  /** The path p starts some number of the set. */
  ghost predicate Covered(p: Bits, nums: set<int>)
  {
    exists m :: m in nums && p <= BitsOf(m)
  }

  /** No number of the set does better on the first |q| bits than the path q. */
  ghost predicate Leading(num: int, nums: set<int>, q: Bits)
  {
    && |q| <= 32 && Covered(q, nums)
    && forall m :: m in nums ==> Score(num, BitsOf(m)[..|q|]) <= Score(num, q)
  }

  lemma PrefixGrows(m: int, k: nat)
    requires k < 32
    ensures BitsOf(m)[..k + 1] == BitsOf(m)[..k] + [BitsOf(m)[k]]
  {
  }

  lemma TakeOpposite(num: int, nums: set<int>, q: Bits)
    requires Leading(num, nums, q) && |q| < 32 && Covered(q + [!BitsOf(num)[|q|]], nums)
    ensures Leading(num, nums, q + [!BitsOf(num)[|q|]])
    ensures Score(num, q + [!BitsOf(num)[|q|]]) == 2 * Score(num, q) + 1
  {
    var k := |q|;
    ScoreStep(num, q, !BitsOf(num)[k]);
    forall m | m in nums ensures Score(num, BitsOf(m)[..k + 1]) <= 2 * Score(num, q) + 1 {
      PrefixGrows(m, k);
      ScoreStep(num, BitsOf(m)[..k], BitsOf(m)[k]);
    }
  }

  lemma TakeSame(num: int, nums: set<int>, q: Bits)
    requires Leading(num, nums, q) && |q| < 32 && !Covered(q + [!BitsOf(num)[|q|]], nums)
    ensures Leading(num, nums, q + [BitsOf(num)[|q|]])
    ensures Score(num, q + [BitsOf(num)[|q|]]) == 2 * Score(num, q)
  {
    var k, b := |q|, BitsOf(num)[|q|];
    ScoreStep(num, q, b);
    var w :| w in nums && q <= BitsOf(w);
    OnlyOneWay(nums, q, b, w);
    forall m | m in nums ensures Score(num, BitsOf(m)[..k + 1]) <= 2 * Score(num, q) {
      PrefixGrows(m, k);
      ScoreStep(num, BitsOf(m)[..k], BitsOf(m)[k]);
      if Score(num, BitsOf(m)[..k]) == Score(num, q) {
        ScoreInjective(num, BitsOf(m)[..k], q);
        OnlyOneWay(nums, q, b, m);
      }
    }
  }

  /** Where no number turns off the path, every number on it goes straight on. */
  lemma OnlyOneWay(nums: set<int>, q: Bits, b: bool, m: int)
    requires |q| < 32 && m in nums && q <= BitsOf(m) && !Covered(q + [!b], nums)
    ensures BitsOf(m)[|q|] == b && q + [b] <= BitsOf(m)
  {
    PrefixGrows(m, |q|);
    assert BitsOf(m)[..|q|] == q;
    assert q + [BitsOf(m)[|q|]] <= BitsOf(m);
  }

  /** Among the numbers of the set, none has a larger unsigned XOR with num than m. */
  ghost predicate BestPartner(num: int, m: int, nums: set<int>)
  {
    m in nums && forall x :: x in nums ==> UnsignedXor(num, x) <= UnsignedXor(num, m)
  }

  lemma {:induction false} BestPartnerExists(num: int, nums: set<int>)
    requires nums != {}
    ensures exists m :: BestPartner(num, m, nums)
    decreases |nums|
  {
    var x := Sets.ElementOf(nums);
    var rest := nums - {x};
    var m := x;
    if rest != {} {
      BestPartnerExists(num, rest);
      var r :| BestPartner(num, r, rest);
      m := if UnsignedXor(num, x) <= UnsignedXor(num, r) then r else x;
    }
    forall y | y in nums ensures UnsignedXor(num, y) <= UnsignedXor(num, m) {
      assert y == x || y in rest;
    }
    assert BestPartner(num, m, nums);
  }

  /** The largest unsigned XOR of num with a number of the set. */
  ghost function Best(num: int, nums: set<int>): nat
    requires nums != {}
  {
    BestPartnerExists(num, nums);
    var m :| BestPartner(num, m, nums);
    UnsignedXor(num, m)
  }

  lemma BestIsLargest(num: int, nums: set<int>) returns (m: int)
    requires nums != {}
    ensures m in nums && Best(num, nums) == UnsignedXor(num, m)
    ensures forall x :: x in nums ==> UnsignedXor(num, x) <= Best(num, nums)
  {
    BestPartnerExists(num, nums);
    m :| BestPartner(num, m, nums) && Best(num, nums) == UnsignedXor(num, m);
  }

  lemma LeadingIsBest(num: int, nums: set<int>, q: Bits)
    requires Leading(num, nums, q) && |q| == 32
    ensures nums != {} && Score(num, q) == Best(num, nums)
  {
    var m :| m in nums && q <= BitsOf(m);
    assert q == BitsOf(m);
    ScoreOfAll(num, m);
    var best := BestIsLargest(num, nums);
    assert UnsignedXor(num, m) <= Best(num, nums);
    assert BitsOf(best)[..32] == BitsOf(best);
    ScoreOfAll(num, best);
  }

  // -------------------------------------------------------------------- linked nodes

  class TrieNode {
    var children: seq<TrieNode?>
    /** Where the node stands. */
    ghost const path: Bits

    constructor (ghost path: Bits)
      ensures children == [null, null] && this.path == path
    {
      children := [null, null];
      this.path := path;
    }
  }

  function Index(b: bool): nat { if b then 1 else 0 }

  /** The child pointer of node p for bit b leads to the node of path p + [b], if any. */
  ghost predicate Linked(nodes: map<Bits, TrieNode>, p: Bits, b: bool)
    requires p in nodes
    reads nodes[p]
  {
    && |nodes[p].children| == 2
    && nodes[p].children[Index(b)] == if p + [b] in nodes then nodes[p + [b]] else null
  }

  /** `nodes` names the node reached by each path from the root. */
  ghost predicate Wired(nodes: map<Bits, TrieNode>, repr: set<TrieNode>)
    reads repr
  {
    && (forall p :: p in nodes ==> nodes[p] in repr && nodes[p].path == p)
    && ClosedUp(nodes.Keys)
    && (forall p, b: bool :: p in nodes ==> Linked(nodes, p, b))
  }

  /** The paths of the trie are the root and the prefixes of the inserted numbers. */
  ghost predicate Holds(paths: set<Bits>, nums: set<int>)
  {
    forall p :: p in paths <==> p == [] || Covered(p, nums)
  }

  ghost predicate ClosedUp(paths: set<Bits>)
  {
    [] in paths && forall p, b: bool :: p + [b] in paths ==> p in paths
  }

  lemma AppendIsInjective(p: Bits, c: bool, q: Bits, d: bool)
    ensures p + [c] == q + [d] <==> p == q && c == d
  {
    if p + [c] == q + [d] {
      assert p == (p + [c])[..|p|] && q == (q + [d])[..|q|];
      assert c == (p + [c])[|p|] && d == (q + [d])[|q|];
    }
  }

  lemma NewPath(paths: set<Bits>, path: Bits, b: bool)
    requires ClosedUp(paths) && path in paths && path + [b] !in paths
    ensures ClosedUp(paths + {path + [b]})
    ensures forall c: bool :: path + [b] + [c] !in paths
  {
    forall p, c: bool | p + [c] == path + [b] ensures p == path {
      AppendIsInjective(p, c, path, b);
    }
  }

  function Prefix(num: int, k: nat): Bits
    requires k <= 32
  {
    BitsOf(num)[..k]
  }

  /** The paths along the first k bits of num. */
  function PathsTo(num: int, k: nat): set<Bits>
    requires k <= 32
  {
    if k == 0 then {[]} else PathsTo(num, k - 1) + {Prefix(num, k)}
  }

  lemma {:induction false} PathsAlong(num: int, k: nat)
    requires k <= 32
    ensures forall q :: q in PathsTo(num, k) <==> q <= BitsOf(num) && |q| <= k
    decreases k
  {
    if k > 0 {
      PathsAlong(num, k - 1);
      forall q | q <= BitsOf(num) && |q| == k ensures q == Prefix(num, k) {
        assert q == BitsOf(num)[..k];
      }
    }
  }

  lemma NextPrefix(num: int, k: nat)
    requires k < 32
    ensures Prefix(num, k + 1) == Prefix(num, k) + [Bit(num, 31 - k)]
    ensures PathsTo(num, k + 1) == PathsTo(num, k) + {Prefix(num, k) + [Bit(num, 31 - k)]}
  {
    PrefixGrows(num, k);
  }

  class MaximumXOR {
    const root: TrieNode
    ghost var nodes: map<Bits, TrieNode>
    ghost var repr: set<TrieNode>
    ghost var inserted: set<int>

    ghost predicate Valid()
      reads this, repr
    {
      && Wired(nodes, repr) && nodes[[]] == root
      && Holds(nodes.Keys, inserted) && forall m :: m in inserted ==> IsInt(m)
    }

    constructor ()
      ensures Valid() && inserted == {} && fresh(repr)
    {
      var node := new TrieNode([]);
      root := node;
      nodes := map[[] := node];
      repr := {node};
      inserted := {};
    }

    /** One step of insertion: the child for a bit, made when missing. */
    method ChildOrNew(node: TrieNode, ghost path: Bits, b: bool) returns (child: TrieNode)
      requires Wired(nodes, repr) && path in nodes && nodes[path] == node
      modifies this`nodes, this`repr, node
      ensures Wired(nodes, repr) && nodes.Keys == old(nodes.Keys) + {path + [b]} && child == nodes[path + [b]]
      ensures nodes[[]] == old(nodes[[]]) && old(repr) <= repr && fresh(repr - old(repr))
    {
      assert Linked(nodes, path, b);
      if node.children[Index(b)] == null {
        child := new TrieNode(path + [b]);
        NewPath(nodes.Keys, path, b);
        node.children := node.children[Index(b) := child];
        ghost var was := nodes;
        nodes := nodes[path + [b] := child];
        repr := repr + {child};
        forall p, c: bool | p in nodes ensures Linked(nodes, p, c) {
          AppendIsInjective(p, c, path, b);
          if p in was {
            assert old(Linked(was, p, c));
          }
        }
      } else {
        child := node.children[Index(b)];
      }
    }

    /** The state of insertion after k bits: p is the node for them, and the paths are
        those from before and those along num. */
    ghost predicate Reached(p: TrieNode, num: int, k: nat, before: set<Bits>)
      requires k <= 32
      reads this, repr
    {
      && Wired(nodes, repr) && nodes[[]] == root
      && nodes.Keys == before + PathsTo(num, k)
      && Prefix(num, k) in nodes && p == nodes[Prefix(num, k)]
    }

    method NextNode(p: TrieNode, num: int, bit: nat, ghost before: set<Bits>) returns (child: TrieNode)
      requires bit < 32 && Reached(p, num, 31 - bit, before)
      modifies this`nodes, this`repr, p
      ensures Reached(child, num, 32 - bit, before) && old(repr) <= repr && fresh(repr - old(repr))
    {
      NextPrefix(num, 31 - bit);
      child := ChildOrNew(p, Prefix(num, 31 - bit), Bit(num, bit));
    }

    /** The loop of insertion, from bit 31 down. */
    method InsertPath(num: int)
      requires Wired(nodes, repr) && nodes[[]] == root
      modifies this`nodes, this`repr, repr
      ensures Wired(nodes, repr) && nodes[[]] == root && fresh(repr - old(repr))
      ensures nodes.Keys == old(nodes.Keys) + PathsTo(num, 32)
    {
      var p := root;
      for bit := 32 downto 0
        invariant Reached(p, num, 32 - bit, old(nodes.Keys)) && fresh(repr - old(repr))
      {
        p := NextNode(p, num, bit, old(nodes.Keys));
      }
    }

    method Insert(num: int)
      requires Valid() && IsInt(num)
      modifies this, repr
      ensures Valid() && inserted == old(inserted) + {num} && fresh(repr - old(repr))
    {
      InsertPath(num);
      HoldsMore(old(nodes.Keys), inserted, num);
      inserted := inserted + {num};
    }

    /** The greedy walk. It never meets a missing child, and what it adds up is the largest
        unsigned XOR of num with an inserted number. Setting a clear bit of ans adds its
        weight. */
    method GetMaxXOR(num: int) returns (ans: int)
      requires Valid() && inserted != {}
      ensures ans == Answer(num, inserted)
    {
      var p := root;
      ghost var path: Bits := [];
      var sum: nat := 0;
      StartWalk(num, inserted);
      for bit := 32 downto 0
        invariant path in nodes && p == nodes[path] && Walking(num, inserted, path, bit, sum)
      {
        var b := Bit(num, bit);
        WalkStep(num, inserted, path, bit, sum);
        Child(path, b);
        Child(path, !b);
        if p.children[Index(!b)] != null {
          sum := sum + Pow2(bit);
          p := p.children[Index(!b)];
          path := path + [!b];
        } else {
          p := p.children[Index(b)];
          path := path + [b];
        }
      }
      LeadingIsBest(num, inserted, path);
      ans := Signed(sum);
    }

    /** Insert all, then take the best of the walks, but at least 0. On a fresh object the
        answer is the maximum over two different elements exactly for inputs that
        TellsMaximum admits. */
    method FindMaximumXOR(nums: seq<int>) returns (ans: int)
      requires Valid() && AllInts(nums)
      modifies this, repr
      ensures Valid() && fresh(repr - old(repr))
      ensures inserted == old(inserted) + Elements(nums)
      ensures ans == LargestAnswer(nums, inserted)
      ensures old(inserted) == {} ==> (IsMaximum(ans, nums) <==> TellsMaximum(nums))
    {
      InsertAll(nums);
      ans := BestOfAll(nums);
      if old(inserted) == {} {
        assert inserted == Elements(nums);
        MaximumIff(nums);
      }
    }

    method BestOfAll(nums: seq<int>) returns (ans: int)
      requires Valid() && Elements(nums) <= inserted
      ensures ans == LargestAnswer(nums, inserted)
    {
      ans := 0;
      for i := 0 to |nums|
        invariant ans == LargestAnswer(nums[..i], inserted)
      {
        var num := nums[i];
        assert num in Elements(nums);
        assert nums[..i + 1][..i] == nums[..i];
        var best := GetMaxXOR(num);
        if best > ans {
          ans := best;
        }
      }
      assert nums[..|nums|] == nums;
    }

    method InsertAll(nums: seq<int>)
      requires Valid() && AllInts(nums)
      modifies this, repr
      ensures Valid() && fresh(repr - old(repr))
      ensures inserted == old(inserted) + Elements(nums)
    {
      for i := 0 to |nums|
        invariant Valid() && fresh(repr - old(repr))
        invariant inserted == old(inserted) + Elements(nums[..i])
      {
        ElementsGrow(nums, i);
        Insert(nums[i]);
      }
      assert nums[..|nums|] == nums;
    }

    /** Which children exist is decided by the inserted numbers. */
    lemma Child(path: Bits, b: bool)
      requires Valid() && path in nodes
      ensures |nodes[path].children| == 2
      ensures nodes[path].children[Index(b)] != null <==> Covered(path + [b], inserted)
      ensures Covered(path + [b], inserted) ==>
                path + [b] in nodes && nodes[path].children[Index(b)] == nodes[path + [b]]
    {
      assert Linked(nodes, path, b);
      assert path + [b] in nodes.Keys <==> Covered(path + [b], inserted);
    }
  }

  /** The state of the search before the given bit. */
  ghost predicate Walking(num: int, nums: set<int>, path: Bits, bit: nat, sum: nat)
  {
    Leading(num, nums, path) && |path| == 32 - bit && sum == Weighted(Score(num, path), bit)
  }

  lemma StartWalk(num: int, nums: set<int>)
    requires nums != {}
    ensures Walking(num, nums, [], 32, 0)
  {
    NothingWeighsNothing(32);
    var m := Sets.ElementOf(nums);
    assert [] <= BitsOf(m);
    forall m | m in nums ensures BitsOf(m)[..0] == [] {
    }
  }

  lemma WalkStep(num: int, nums: set<int>, path: Bits, bit: nat, sum: nat)
    requires bit < 32 && Walking(num, nums, path, bit + 1, sum)
    ensures var b := Bit(num, bit);
            if Covered(path + [!b], nums) then Walking(num, nums, path + [!b], bit, sum + Pow2(bit))
            else Covered(path + [b], nums) && Walking(num, nums, path + [b], bit, sum)
  {
    var b := Bit(num, bit);
    assert b == BitsOf(num)[|path|];
    AddBit(2 * Score(num, path), bit);
    if Covered(path + [!b], nums) {
      TakeOpposite(num, nums, path);
    } else {
      TakeSame(num, nums, path);
    }
  }

  /** A number of which `bit` more bits are to come, all clear so far. */
  function Weighted(score: nat, bit: nat): nat
    decreases bit
  {
    if bit == 0 then score else Weighted(2 * score, bit - 1)
  }

  /** Setting that bit adds its weight. */
  lemma {:induction false} AddBit(score: nat, bit: nat)
    ensures Weighted(score + 1, bit) == Weighted(score, bit) + Pow2(bit)
    decreases bit
  {
    if bit > 0 {
      AddBit(2 * score, bit - 1);
      AddBit(2 * score + 1, bit - 1);
    }
  }

  lemma {:induction false} NothingWeighsNothing(bit: nat)
    ensures Weighted(0, bit) == 0
  {
    if bit > 0 {
      NothingWeighsNothing(bit - 1);
    }
  }

  lemma HoldsMore(paths: set<Bits>, nums: set<int>, num: int)
    requires Holds(paths, nums)
    ensures Holds(paths + PathsTo(num, 32), nums + {num})
  {
    PathsAlong(num, 32);
    var more := paths + PathsTo(num, 32);
    var all := nums + {num};
    forall q ensures q in more <==> q == [] || Covered(q, all) {
      if Covered(q, nums) {
        var m :| m in nums && q <= BitsOf(m);
        assert m in all;
      }
      if q <= BitsOf(num) {
        assert num in all;
      }
      if Covered(q, all) {
        var m :| m in all && q <= BitsOf(m);
        assert m in nums || m == num;
      }
    }
  }

  // --------------------------------------------------------------- what the search finds

  predicate AllInts(nums: seq<int>)
  {
    forall x :: x in nums ==> IsInt(x)
  }

  function Elements(nums: seq<int>): set<int>
  {
    set x | x in nums
  }

  lemma ElementsGrow(nums: seq<int>, i: nat)
    requires i < |nums|
    ensures Elements(nums[..i + 1]) == Elements(nums[..i]) + {nums[i]}
  {
    assert nums[..i + 1] == nums[..i] + [nums[i]];
  }

  /** The answer for num: the largest unsigned XOR, read as an int. */
  ghost function Answer(num: int, all: set<int>): int
    requires all != {}
  {
    Signed(Best(num, all))
  }

  /** The largest of 0 and the answers for the numbers of the list. */
  ghost function LargestAnswer(nums: seq<int>, all: set<int>): int
  {
    if nums == [] || all == {} then 0
    else
      var ans, last := LargestAnswer(nums[..|nums| - 1], all), Answer(nums[|nums| - 1], all);
      if last > ans then last else ans
  }

  lemma {:induction false} LargestIsLargest(nums: seq<int>, all: set<int>)
    requires all != {}
    ensures LargestAnswer(nums, all) >= 0
    ensures forall n :: n in nums ==> Answer(n, all) <= LargestAnswer(nums, all)
    ensures LargestAnswer(nums, all) == 0 || exists n :: n in nums && LargestAnswer(nums, all) == Answer(n, all)
    decreases |nums|
  {
    if nums != [] {
      var front, last := nums[..|nums| - 1], nums[|nums| - 1];
      assert nums == front + [last];
      LargestIsLargest(front, all);
      assert last in nums;
    }
  }

  /** The maximum of XOR over two different positions; 0 for fewer than two numbers. */
  ghost predicate IsMaximum(ans: int, nums: seq<int>)
  {
    if |nums| < 2 then ans == 0
    else (forall i, j :: 0 <= i < j < |nums| ==> Xor(nums[i], nums[j]) <= ans) && AttainedApart(ans, nums)
  }

  ghost predicate AttainedApart(ans: int, nums: seq<int>)
  {
    exists i, j :: 0 <= i < j < |nums| && ans == Xor(nums[i], nums[j])
  }

  /** The maximum of XOR when a number may also be paired with itself. */
  ghost predicate IsSelfMaximum(ans: int, nums: seq<int>)
  {
    (forall a, b :: a in nums && b in nums ==> Xor(a, b) <= ans) && Attained(ans, nums)
  }

  ghost predicate Attained(ans: int, nums: seq<int>)
  {
    exists a, b :: a in nums && b in nums && ans == Xor(a, b)
  }

  /** All numbers have one sign, or there are three or more and all numbers of the same
      sign are equal. */
  ghost predicate TellsMaximum(nums: seq<int>)
  {
    OneSign(nums) || (EqualPerSign(nums) && |nums| >= 3)
  }

  ghost predicate OneSign(nums: seq<int>)
  {
    forall a, b :: a in nums && b in nums ==> (a < 0) == (b < 0)
  }

  ghost predicate EqualPerSign(nums: seq<int>)
  {
    forall a, b :: a in nums && b in nums && (a < 0) == (b < 0) ==> a == b
  }

  /** For numbers of one sign XOR and unsigned XOR agree. */
  lemma OneSignAnswer(nums: seq<int>, a: int)
    requires AllInts(nums) && OneSign(nums) && a in nums
    ensures Elements(nums) != {} && Attained(Answer(a, Elements(nums)), nums)
    ensures forall b :: b in nums ==> Xor(a, b) <= Answer(a, Elements(nums))
  {
    var all := Elements(nums);
    assert a in all;
    var m := BestIsLargest(a, all);
    assert m in nums;
    assert Answer(a, all) == Xor(a, m);
    XorSign(a, m);
    forall b | b in nums ensures Xor(a, b) <= Answer(a, all) {
      assert b in all;
      XorSign(a, b);
    }
  }

  lemma ZeroIsAttained(nums: seq<int>)
    requires AllInts(nums) && nums != []
    ensures Attained(0, nums)
  {
    var a := nums[0];
    assert a in nums;
    XorSign(a, a);
  }

  lemma OneSignAttained(nums: seq<int>, ans: int)
    requires AllInts(nums) && OneSign(nums) && nums != [] && Elements(nums) != {}
    requires ans == 0 || exists n :: n in nums && ans == Answer(n, Elements(nums))
    ensures Attained(ans, nums)
  {
    if ans == 0 {
      ZeroIsAttained(nums);
    } else {
      var n :| n in nums && ans == Answer(n, Elements(nums));
      OneSignAnswer(nums, n);
    }
  }

  lemma OneSignMaximum(nums: seq<int>, ans: int)
    requires AllInts(nums) && OneSign(nums) && nums != [] && Elements(nums) != {}
    requires ans == 0 || exists n :: n in nums && ans == Answer(n, Elements(nums))
    requires forall n :: n in nums ==> Answer(n, Elements(nums)) <= ans
    ensures IsMaximum(ans, nums)
  {
    OneSignSelfMaximum(nums, ans);
    SelfMaximumIsMaximum(ans, nums);
  }

  lemma OneSignSelfMaximum(nums: seq<int>, ans: int)
    requires AllInts(nums) && OneSign(nums) && nums != [] && Elements(nums) != {}
    requires ans == 0 || exists n :: n in nums && ans == Answer(n, Elements(nums))
    requires forall n :: n in nums ==> Answer(n, Elements(nums)) <= ans
    ensures IsSelfMaximum(ans, nums)
  {
    forall a, b | a in nums && b in nums ensures Xor(a, b) <= ans {
      OneSignAnswer(nums, a);
    }
    OneSignAttained(nums, ans);
  }

  /** For numbers of one sign it makes no difference whether a number may be paired with
      itself. */
  lemma SelfMaximumIsMaximum(ans: int, nums: seq<int>)
    requires AllInts(nums) && OneSign(nums) && IsSelfMaximum(ans, nums)
    ensures IsMaximum(ans, nums)
  {
    if |nums| < 2 {
      SelfMaximumOfOne(ans, nums);
    } else {
      var i, j := MaximumOfTwoElements(ans, nums);
      assert AttainedApart(ans, nums);
      forall i, j | 0 <= i < j < |nums| ensures Xor(nums[i], nums[j]) <= ans {
        var a, b := nums[i], nums[j];
        assert a in nums && b in nums;
      }
    }
  }

  lemma SelfMaximumOfOne(ans: int, nums: seq<int>)
    requires AllInts(nums) && |nums| < 2 && Attained(ans, nums)
    ensures ans == 0
  {
    var a, b :| a in nums && b in nums && ans == Xor(a, b);
    XorSign(a, b);
  }

  /** A number of the other sign is always the better partner. */
  lemma OtherSignWins(n: int, nums: seq<int>, other: int)
    requires AllInts(nums) && n in nums && other in nums && (n < 0) != (other < 0)
    ensures Elements(nums) != {} && Answer(n, Elements(nums)) < 0
  {
    var all := Elements(nums);
    assert other in all;
    var m := BestIsLargest(n, all);
    assert m in nums;
    assert UnsignedXor(n, other) <= UnsignedXor(n, m);
    XorSign(n, other);
    XorSign(n, m);
  }

  /** With both signs present every walk takes the sign bit, so every answer is negative
      and the outcome is 0. */
  lemma MixedSignsGiveZero(nums: seq<int>, a: int, b: int)
    requires AllInts(nums) && a in nums && b in nums && (a < 0) != (b < 0)
    ensures LargestAnswer(nums, Elements(nums)) == 0
  {
    MixedAnswers(nums, a, b);
    NegativeAnswersGiveZero(nums, Elements(nums));
  }

  lemma MixedAnswers(nums: seq<int>, a: int, b: int)
    requires AllInts(nums) && a in nums && b in nums && (a < 0) != (b < 0)
    ensures Elements(nums) != {} && forall n :: n in nums ==> Answer(n, Elements(nums)) < 0
  {
    assert a in Elements(nums);
    forall n | n in nums ensures Answer(n, Elements(nums)) < 0 {
      OtherSignWins(n, nums, if (a < 0) != (n < 0) then a else b);
    }
  }

  lemma NegativeAnswersGiveZero(nums: seq<int>, all: set<int>)
    requires all != {} && forall n :: n in nums ==> Answer(n, all) < 0
    ensures LargestAnswer(nums, all) == 0
  {
    LargestIsLargest(nums, all);
  }

  /** Of three numbers two have the same sign. */
  lemma TwoOfOneSign(nums: seq<int>) returns (i: nat, j: nat)
    requires |nums| >= 3
    ensures i < j < |nums| && (nums[i] < 0) == (nums[j] < 0)
  {
    i, j := if (nums[0] < 0) == (nums[1] < 0) || (nums[0] < 0) == (nums[2] < 0) then 0 else 1,
            if (nums[0] < 0) == (nums[1] < 0) then 1 else 2;
  }

  lemma EqualPerSignMaximum(nums: seq<int>)
    requires AllInts(nums) && EqualPerSign(nums) && |nums| >= 3
    ensures IsMaximum(0, nums)
  {
    forall i, j | 0 <= i < j < |nums| ensures Xor(nums[i], nums[j]) <= 0 {
      NeverPositive(nums, nums[i], nums[j]);
    }
    var i, j := TwoOfOneSign(nums);
    XorSign(nums[i], nums[j]);
  }

  lemma NeverPositive(nums: seq<int>, a: int, b: int)
    requires AllInts(nums) && EqualPerSign(nums) && a in nums && b in nums
    ensures Xor(a, b) <= 0
  {
    XorSign(a, b);
  }

  /** Two different numbers of one sign have a positive XOR. */
  lemma UnequalExceedsZero(nums: seq<int>)
    requires AllInts(nums) && !EqualPerSign(nums)
    ensures !IsMaximum(0, nums)
  {
    var a, b :| a in nums && b in nums && (a < 0) == (b < 0) && a != b;
    var i :| 0 <= i < |nums| && nums[i] == a;
    var j :| 0 <= j < |nums| && nums[j] == b;
    XorSign(a, b);
    XorSign(b, a);
  }

  /** Two numbers of opposite signs have a negative XOR. */
  lemma OppositePairIsBelowZero(nums: seq<int>)
    requires AllInts(nums) && |nums| == 2 && !OneSign(nums)
    ensures !IsMaximum(0, nums)
  {
    XorSign(nums[0], nums[1]);
  }

  lemma ZeroIsMaximumIff(nums: seq<int>)
    requires AllInts(nums) && !OneSign(nums)
    ensures IsMaximum(0, nums) <==> EqualPerSign(nums) && |nums| >= 3
  {
    if |nums| == 2 {
      OppositePairIsBelowZero(nums);
    } else if EqualPerSign(nums) {
      EqualPerSignMaximum(nums);
    } else {
      UnequalExceedsZero(nums);
    }
  }

  /** What findMaximumXOR returns on a fresh object is the maximum over two different
      elements exactly when all numbers have one sign, or there are three or more and all
      numbers of the same sign are equal. */
  lemma MaximumIff(nums: seq<int>)
    requires AllInts(nums)
    ensures IsMaximum(LargestAnswer(nums, Elements(nums)), nums) <==> TellsMaximum(nums)
  {
    if nums != [] {
      assert nums[0] in Elements(nums);
      if OneSign(nums) {
        LargestIsLargest(nums, Elements(nums));
        OneSignMaximum(nums, LargestAnswer(nums, Elements(nums)));
      } else {
        var a, b :| a in nums && b in nums && (a < 0) != (b < 0);
        MixedSignsGiveZero(nums, a, b);
        ZeroIsMaximumIff(nums);
      }
    }
  }

  lemma XorCommutes(a: int, b: int)
    ensures Xor(a, b) == Xor(b, a)
  {
    assert XorBits(BitsOf(a), BitsOf(b)) == XorBits(BitsOf(b), BitsOf(a));
  }

  /** For two or more numbers of one sign that maximum is reached at two positions. */
  lemma MaximumOfTwoElements(ans: int, nums: seq<int>) returns (i: nat, j: nat)
    requires AllInts(nums) && OneSign(nums) && IsSelfMaximum(ans, nums) && |nums| >= 2
    ensures i < j < |nums| && ans == Xor(nums[i], nums[j])
  {
    var a, b :| a in nums && b in nums && ans == Xor(a, b);
    i :| 0 <= i < |nums| && nums[i] == a;
    j :| 0 <= j < |nums| && nums[j] == b;
    if i == j {
      AllZero(ans, nums, a);
      i, j := 0, 1;
    } else if i > j {
      XorCommutes(a, b);
      i, j := j, i;
    }
  }

  lemma AllZero(ans: int, nums: seq<int>, a: int)
    requires AllInts(nums) && OneSign(nums) && IsSelfMaximum(ans, nums) && ans == Xor(a, a) && IsInt(a) && |nums| >= 2
    ensures ans == Xor(nums[0], nums[1])
  {
    var x, y := nums[0], nums[1];
    assert x in nums && y in nums;
    XorSign(a, a);
    XorSign(x, y);
  }

  /** The answer for 0, 1 and -1 is not the maximum: 0 XOR 1 is positive. */
  lemma MixedSignsMissMaximum(nums: seq<int>)
    requires nums == [0, 1, -1]
    ensures LargestAnswer(nums, Elements(nums)) == 0 < Xor(nums[0], nums[1])
  {
    MixedSignsGiveZero(nums, nums[0], nums[2]);
    XorSign(nums[0], nums[1]);
  }

  /** For 0 and -1 the answer is 0, and the XOR of the only two elements is negative. */
  lemma OppositePairMissesMaximum(nums: seq<int>)
    requires nums == [0, -1]
    ensures LargestAnswer(nums, Elements(nums)) == 0 > Xor(nums[0], nums[1])
    ensures EqualPerSign(nums) && !IsMaximum(0, nums)
  {
    MixedSignsGiveZero(nums, nums[0], nums[1]);
    XorSign(nums[0], nums[1]);
    OppositePairIsBelowZero(nums);
  }
}
