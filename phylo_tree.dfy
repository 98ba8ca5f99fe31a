/** The phylogenetic tree of inferAdjProb (code/inferAdjProb.c): the Newick-like reader
    readTreeString, isLeaf, identifyOutgroup, the preorder `next` list built by
    adjustNextInTree, and the re-rooting at the ancestor done by modifyTree with
    modifyBranchLen and rerootTree.

    The nodes live in an arena: node k has parent, left and right links (-1 for NULL),
    a branch length distalpha, a name and an outgroup flag, each kept in a sequence
    field indexed by k.  The source's rewiring of pointers becomes updates of those
    sequences. */
module PhyloTree {
  import opened Wrappers

  const NIL: int := -1
  /** STACKSZ: the depth of the parser's explicit stack. */
  const STACKSZ: nat := 50000

  /** isSepSymbol. */
  predicate Sep(c: char)
  {
    c == ',' || c == '(' || c == ')' || c == ';' || c == ':'
  }

  /** A node's name: none yet (an open internal node), the text read from the tree
      string, or the generated name "IN<k>". */
  datatype Label = NoName | Given(text: string) | Auto(k: nat)

  /** Every link is NULL or a node. */
  predicate Links(ls: seq<int>, n: nat)
  {
    forall k :: 0 <= k < |ls| ==> -1 <= ls[k] < n
  }

  /** The node reached from k after s parent steps (NULL once the chain ends). */
  function Up(parent: seq<int>, k: int, s: nat): (u: int)
    requires Links(parent, |parent|) && -1 <= k < |parent|
    ensures -1 <= u < |parent|
    decreases s
  {
    if s == 0 || k == NIL then k else Up(parent, parent[k], s - 1)
  }

  lemma {:induction false} UpStep(parent: seq<int>, k: int, s: nat)
    requires Links(parent, |parent|) && -1 <= k < |parent|
    ensures Up(parent, k, s + 1) == if Up(parent, k, s) == NIL then NIL else parent[Up(parent, k, s)]
    decreases s
  {
    if s > 0 && k != NIL {
      UpStep(parent, parent[k], s - 1);
    }
  }

  lemma {:induction false} UpEnded(parent: seq<int>, k: int, s: nat, s': nat)
    requires Links(parent, |parent|) && -1 <= k < |parent|
    requires Up(parent, k, s) == NIL && s <= s'
    ensures Up(parent, k, s') == NIL
  {
    if s < s' {
      UpEnded(parent, k, s, s' - 1);
      UpStep(parent, k, s' - 1);
    }
  }

  /** The node a lies on the parent chain of k, k itself included. */
  ghost predicate OnChain(parent: seq<int>, k: int, a: int)
    requires Links(parent, |parent|) && -1 <= k < |parent|
  {
    a != NIL && exists s :: 0 <= s <= |parent| && Up(parent, k, s) == a
  }

  /** The parent of path[m] is path[m + 1]. */
  ghost predicate ParentNext(parent: seq<int>, path: seq<int>, m: int)
  {
    0 <= m < |path| - 1 && 0 <= path[m] < |parent| && parent[path[m]] == path[m + 1]
  }

  /** The parent of path[m] is path[m - 1]. */
  ghost predicate ParentPrev(parent: seq<int>, path: seq<int>, m: int)
  {
    1 <= m < |path| && 0 <= path[m] < |parent| && parent[path[m]] == path[m - 1]
  }

  /** path[m] and path[m'] are different nodes. */
  ghost predicate Apart(path: seq<int>, m: int, m': int)
  {
    0 <= m < |path| && 0 <= m' < |path| && m != m' ==> path[m] != path[m']
  }

  /** `path` is the parent chain from path[0] up to a node without parent, without
      repetition. */
  ghost predicate ChainPath(parent: seq<int>, path: seq<int>)
  {
    |path| >= 1 &&
    (forall m :: 0 <= m < |path| ==> 0 <= path[m] < |parent|) &&
    (forall m :: 0 <= m < |path| - 1 ==> ParentNext(parent, path, m)) &&
    parent[path[|path| - 1]] == NIL &&
    forall m, m' :: Apart(path, m, m')
  }

  /** The child slots (left, right) after unlinking child c: the right slot when it
      holds c, the left one otherwise. */
  function Detach(slots: (int, int), c: int): (int, int)
  {
    if slots.1 == c then (slots.0, NIL) else (NIL, slots.1)
  }

  /** The child slots after linking p: into the right slot when it is free, into the
      left one otherwise. */
  function Attach(slots: (int, int), p: int): (int, int)
  {
    if slots.1 == NIL then (slots.0, p) else (p, slots.1)
  }

  /** The child slots that node path[m] (m >= 1) has after re-rooting at path[0]: its
      former child path[m-1] is unlinked and, below the old root, its former parent
      path[m+1] is linked in. */
  function Rerooted(left: seq<int>, right: seq<int>, path: seq<int>, m: int): (int, int)
    requires |left| == |right| && 1 <= m < |path| && forall j :: 0 <= j < |path| ==> 0 <= path[j] < |left|
  {
    var d := Detach((left[path[m]], right[path[m]]), path[m - 1]);
    if m < |path| - 1 then Attach(d, path[m + 1]) else d
  }

  /** On a node with two distinct children, re-rooting puts the former parent in the
      slot of the former child; the old root keeps only its other child. */
  lemma RerootedSlot(left: seq<int>, right: seq<int>, path: seq<int>, m: int)
    requires |left| == |right| && 1 <= m < |path| && forall j :: 0 <= j < |path| ==> 0 <= path[j] < |left|
    requires var x := path[m]; left[x] != NIL && right[x] != NIL && left[x] != right[x]
    requires var x := path[m]; left[x] == path[m - 1] || right[x] == path[m - 1]
    ensures var x := path[m];
      var up := if m < |path| - 1 then path[m + 1] else NIL;
      Rerooted(left, right, path, m) == if right[x] == path[m - 1] then (left[x], up) else (up, right[x])
  {
  }

  /** The nodes of the subtree at k in preorder (node, left subtree, right subtree),
      following at most `fuel` levels of child links. */
  function Preorder(left: seq<int>, right: seq<int>, k: int, fuel: nat): (r: seq<int>)
    requires |left| == |right| && Links(left, |left|) && Links(right, |left|) && -1 <= k < |left|
    ensures forall m :: 0 <= m < |r| ==> 0 <= r[m] < |left|
    ensures k != NIL && fuel > 0 ==> |r| > 0 && r[0] == k
    ensures k == NIL ==> r == []
    decreases fuel
  {
    if k == NIL || fuel == 0 then []
    else [k] + Preorder(left, right, left[k], fuel - 1) + Preorder(left, right, right[k], fuel - 1)
  }

  // ---------------------------------------------------------------------------
  // Parenthesis balance of the text the reader consumes

  function Count(s: string, c: char): nat
  {
    if |s| == 0 then 0 else Count(s[..|s| - 1], c) + if s[|s| - 1] == c then 1 else 0
  }

  function Depth(s: string): int
  {
    Count(s, '(') - Count(s, ')')
  }

  /** Every '(' is closed by a later ')' and no ')' comes before its '('. */
  ghost predicate Balanced(s: string)
  {
    Depth(s) == 0 && forall i :: 0 <= i <= |s| ==> Depth(s[..i]) >= 0
  }

  lemma DepthStep(s: string, i: int)
    requires 0 <= i < |s|
    ensures Depth(s[..i + 1]) == Depth(s[..i]) + (if s[i] == '(' then 1 else if s[i] == ')' then -1 else 0)
  {
    assert s[..i + 1][..i] == s[..i];
  }

  /** Text without separators changes neither the depth nor the stop position. */
  lemma {:induction false} DepthSpan(s: string, a: int, b: int)
    requires 0 <= a <= b <= |s| && forall i :: a <= i < b ==> !Sep(s[i])
    ensures forall i :: a <= i <= b ==> Depth(s[..i]) == Depth(s[..a])
    ensures a <= Stop(s) ==> b <= Stop(s)
    ensures Nonneg(s, a) ==> Nonneg(s, b)
  {
    if a < b {
      DepthSpan(s, a, b - 1);
      DepthStep(s, b - 1);
    }
  }

  /** The scan of a name or a number: the first separator at or after `from`, or the end
      of the string. */
  function NameEnd(s: string, from: nat): (e: nat)
    requires from <= |s|
    ensures from <= e <= |s| && (e < |s| ==> Sep(s[e]))
    ensures forall i :: from <= i < e ==> !Sep(s[i])
    decreases |s| - from
  {
    if from == |s| || Sep(s[from]) then from else NameEnd(s, from + 1)
  }

  /** The scanning loop of a name or a number. */
  method ScanName(s: string, from: int) returns (pos: int)
    requires 0 <= from <= |s|
    ensures pos == NameEnd(s, from)
  {
    pos := from;
    while pos < |s| && !Sep(s[pos])
      invariant from <= pos <= |s| && NameEnd(s, pos) == NameEnd(s, from)
    {
      pos := pos + 1;
    }
  }

  /** The position where the reader stops: the first ';', or the end of the string. */
  function Stop(s: string): (e: nat)
    ensures e <= |s| && (e < |s| ==> s[e] == ';')
    ensures forall i :: 0 <= i < e ==> s[i] != ';'
  {
    if |s| == 0 then 0 else if s[0] == ';' then 0 else 1 + Stop(s[1..])
  }

  /** Some ')' in the text is directly followed by '@'. */
  predicate MarksAncestor(s: string)
  {
    exists i :: 0 < i < |s| && s[i - 1] == ')' && s[i] == '@'
  }

  /** Setting a link to NULL or a node keeps every link NULL or a node. */
  lemma LinksSet(ls: seq<int>, n: nat, i: int, v: int)
    requires Links(ls, n) && 0 <= i < |ls| && -1 <= v < n
    ensures Links(ls[i := v], n)
  {
  }

  /** The node fields of an arena of |parent| nodes. */
  predicate Arena(parent: seq<int>, left: seq<int>, right: seq<int>, dist: seq<real>, name: seq<Label>)
  {
    var n := |parent|;
    |left| == n && |right| == n && |dist| == n && |name| == n &&
    Links(parent, n) && Links(left, n) && Links(right, n)
  }

  /** No prefix of s[..pos] closes more parentheses than it opens. */
  ghost predicate Nonneg(s: string, pos: int)
    requires 0 <= pos <= |s|
  {
    forall i :: 0 <= i <= pos ==> Depth(s[..i]) >= 0
  }

  lemma NonnegStep(s: string, pos: int)
    requires 0 <= pos < |s| && Nonneg(s, pos) && Depth(s[..pos + 1]) >= 0
    ensures Nonneg(s, pos + 1)
  {
  }

  /** The naming state of the reader: the open nodes on the stack (oldest first) are
      exactly the unnamed ones, and the generated names used so far are IN1..IN<count>,
      each on one node. */
  ghost predicate Naming(name: seq<Label>, stack: seq<int>, count: nat)
  {
    (forall m :: 0 <= m < |stack| ==> 0 <= stack[m] < |name|) &&
    (forall m, m' :: 0 <= m < m' < |stack| ==> stack[m] < stack[m']) &&
    (forall k :: 0 <= k < |name| ==> (name[k] == NoName <==> k in stack)) &&
    (forall a :: 0 <= a < |name| && name[a].Auto? ==> 1 <= name[a].k <= count) &&
    (forall a, b :: 0 <= a < b < |name| && name[a].Auto? && name[b].Auto? ==> name[a].k != name[b].k) &&
    (forall m :: 1 <= m <= count ==> exists b :: 0 <= b < |name| && name[b] == Auto(m))
  }

  /** A leaf is allocated with the name read for it. */
  lemma NamingLeaf(name: seq<Label>, stack: seq<int>, count: nat, text: string)
    requires Naming(name, stack, count)
    ensures Naming(name + [Given(text)], stack, count)
  {
    var name' := name + [Given(text)];
    forall m | 1 <= m <= count
      ensures exists b :: 0 <= b < |name'| && name'[b] == Auto(m)
    {
      var b :| 0 <= b < |name| && name[b] == Auto(m);
      assert name'[b] == Auto(m);
    }
  }

  /** '(' allocates an unnamed node and pushes it. */
  lemma NamingOpen(name: seq<Label>, stack: seq<int>, count: nat)
    requires Naming(name, stack, count)
    ensures Naming(name + [NoName], stack + [|name|], count)
  {
    var name' := name + [NoName];
    var stack' := stack + [|name|];
    forall m | 0 <= m < |stack'|
      ensures 0 <= stack'[m] < |name'|
    {
      if m < |stack| { assert stack'[m] == stack[m]; }
    }
    forall m, m' | 0 <= m < m' < |stack'|
      ensures stack'[m] < stack'[m']
    {
      assert stack'[m] == stack[m];
    }
    forall k | 0 <= k < |name'|
      ensures name'[k] == NoName <==> k in stack'
    {
      if k < |name| {
        assert name'[k] == name[k];
        assert k in stack ==> k in stack';
        if k in stack' && k != |name| {
          var m :| 0 <= m < |stack'| && stack'[m] == k;
          assert m < |stack| && stack[m] == k;
        }
      }
    }
    forall m | 1 <= m <= count
      ensures exists b :: 0 <= b < |name'| && name'[b] == Auto(m)
    {
      var b :| 0 <= b < |name| && name[b] == Auto(m);
      assert name'[b] == Auto(m);
    }
  }

  /** ')' pops the top node and names it, with the text read or the next IN<k>. */
  lemma NamingClose(name: seq<Label>, stack: seq<int>, count: nat, l: Label)
    requires Naming(name, stack, count) && |stack| > 0
    requires l.Given? || l == Auto(count + 1)
    ensures Naming(name[stack[|stack| - 1] := l], stack[..|stack| - 1], if l.Auto? then count + 1 else count)
  {
    var q := stack[|stack| - 1];
    var name' := name[q := l];
    var count' := if l.Auto? then count + 1 else count;
    var rest := stack[..|stack| - 1];
    forall k | 0 <= k < |name'|
      ensures name'[k] == NoName <==> k in rest
    {
      if k in rest {
        var m :| 0 <= m < |rest| && rest[m] == k;
        assert stack[m] < q;
      }
    }
    forall m | 0 <= m < |rest|
      ensures 0 <= rest[m] < |name'|
    {
      assert rest[m] == stack[m];
    }
    forall m, m' | 0 <= m < m' < |rest|
      ensures rest[m] < rest[m']
    {
      assert rest[m] == stack[m] && rest[m'] == stack[m'];
    }
    forall a | 0 <= a < |name'| && name'[a].Auto?
      ensures 1 <= name'[a].k <= count'
    {
      if a != q {
        assert name'[a] == name[a];
      }
    }
    forall a, b | 0 <= a < b < |name'| && name'[a].Auto? && name'[b].Auto?
      ensures name'[a].k != name'[b].k
    {
      if a != q && b != q {
        assert name'[a] == name[a] && name'[b] == name[b];
      } else if a == q {
        assert name'[b] == name[b] && name[b].k <= count;
      } else {
        assert name'[a] == name[a] && name[a].k <= count;
      }
    }
    forall m | 1 <= m <= count'
      ensures exists b :: 0 <= b < |name'| && name'[b] == Auto(m)
    {
      if m <= count {
        var b :| 0 <= b < |name| && name[b] == Auto(m);
        assert name'[b] == Auto(m);
      } else {
        assert name'[q] == Auto(m);
      }
    }
    assert Naming(name', rest, count');
  }

  /** The slots rerootTree leaves on q[j] of the chain q: unlinked from q[j-1] (not
      for q[0], which has been unlinked already) and linked to q[j+1] below the top. */
  function RerootSlots(left: seq<int>, right: seq<int>, q: seq<int>, j: int): (int, int)
    requires |left| == |right| && 0 <= j < |q| && forall i :: 0 <= i < |q| ==> 0 <= q[i] < |left|
  {
    var d := Entered(left, right, q, j);
    if j < |q| - 1 then Attach(d, q[j + 1]) else d
  }

  /** The slots of q[j] when rerootTree reaches it. */
  function Entered(left: seq<int>, right: seq<int>, q: seq<int>, j: int): (int, int)
    requires |left| == |right| && 0 <= j < |q| && forall i :: 0 <= i < |q| ==> 0 <= q[i] < |left|
  {
    if j == 0 then (left[q[0]], right[q[0]]) else Detach((left[q[j]], right[q[j]]), q[j - 1])
  }

  /** One step of rerootTree on the child links: p unlinks its child v, and v links p. */
  function TurnEdge(left: seq<int>, right: seq<int>, v: int, p: int): (lr: (seq<int>, seq<int>))
    requires |left| == |right| && 0 <= v < |left| && 0 <= p < |left| && v != p
    ensures |lr.0| == |left| && |lr.1| == |left|
    ensures Links(left, |left|) && Links(right, |left|) ==> Links(lr.0, |left|) && Links(lr.1, |left|)
    ensures (lr.0[p], lr.1[p]) == Detach((left[p], right[p]), v)
    ensures (lr.0[v], lr.1[v]) == Attach((left[v], right[v]), p)
    ensures forall x :: 0 <= x < |left| && x != v && x != p ==> lr.0[x] == left[x] && lr.1[x] == right[x]
  {
    var (lp, rp) := Detach((left[p], right[p]), v);
    var (lv, rv) := Attach((left[v], right[v]), p);
    (left[p := lp][v := lv], right[p := rp][v := rv])
  }

  /** The links while rerootTree stands at q[m] of the chain q: the nodes below q[m]
      are turned, q[m] is unlinked from the node it was reached from, and the rest of
      the arena is as before. */
  ghost predicate Turned(parent: seq<int>, left: seq<int>, right: seq<int>, q: seq<int>, m: int,
                         parent': seq<int>, left': seq<int>, right': seq<int>)
  {
    |left| == |parent| && |right| == |parent| && ChainPath(parent, q) && 0 <= m < |q| &&
    |parent'| == |parent| && |left'| == |parent| && |right'| == |parent| &&
    SlotsTurned(left, right, q, m, left', right') && ParentsTurned(parent, q, m, parent')
  }

  ghost predicate SlotsTurned(left: seq<int>, right: seq<int>, q: seq<int>, m: int, left': seq<int>, right': seq<int>)
    requires |left| == |right| && |left'| == |left| && |right'| == |left| && 0 <= m < |q|
    requires forall i :: 0 <= i < |q| ==> 0 <= q[i] < |left|
  {
    (forall j {:trigger left'[q[j]]} {:trigger right'[q[j]]} :: 0 <= j < m ==> (left'[q[j]], right'[q[j]]) == RerootSlots(left, right, q, j)) &&
    (left'[q[m]], right'[q[m]]) == Entered(left, right, q, m) &&
    forall x {:trigger left'[x]} {:trigger right'[x]} :: 0 <= x < |left| && !Among(q, m + 1, x) ==> left'[x] == left[x] && right'[x] == right[x]
  }

  ghost predicate ParentsTurned(parent: seq<int>, q: seq<int>, m: int, parent': seq<int>)
    requires |parent'| == |parent| && 0 <= m < |q| && forall i :: 0 <= i < |q| ==> 0 <= q[i] < |parent|
  {
    (forall j :: 1 <= j <= m ==> ParentPrev(parent', q, j)) &&
    forall x :: 0 <= x < |parent| && (x == q[0] || !Among(q, m + 1, x)) ==> parent'[x] == parent[x]
  }

  lemma TurnedStep(parent: seq<int>, left: seq<int>, right: seq<int>, q: seq<int>, m: int,
                   parent': seq<int>, left': seq<int>, right': seq<int>)
    requires Turned(parent, left, right, q, m, parent', left', right') && m < |q| - 1
    requires q[m] != q[m + 1]
    ensures parent'[q[m + 1]] == parent[q[m + 1]]
    ensures var lr := TurnEdge(left', right', q[m], q[m + 1]);
      Turned(parent, left, right, q, m + 1, parent'[q[m + 1] := q[m]], lr.0, lr.1)
  {
    forall j | 0 <= j < m
      ensures q[j] != q[m] && q[j] != q[m + 1]
    {
      assert Apart(q, j, m) && Apart(q, j, m + 1);
    }
    assert Apart(q, m, m + 1);
    AmongIndex(q, m + 1, q[m + 1]);
    SlotsStep(left, right, q, m, left', right');
    ParentsStep(parent, q, m, parent');
  }

  lemma SlotsStep(left: seq<int>, right: seq<int>, q: seq<int>, m: int, left': seq<int>, right': seq<int>)
    requires |left| == |right| && |left'| == |left| && |right'| == |left| && 0 <= m < |q| - 1
    requires forall i :: 0 <= i < |q| ==> 0 <= q[i] < |left|
    requires q[m] != q[m + 1] && !Among(q, m + 1, q[m + 1])
    requires forall j :: 0 <= j < m ==> q[j] != q[m] && q[j] != q[m + 1]
    requires SlotsTurned(left, right, q, m, left', right')
    ensures var lr := TurnEdge(left', right', q[m], q[m + 1]);
      SlotsTurned(left, right, q, m + 1, lr.0, lr.1)
  {
    var lr := TurnEdge(left', right', q[m], q[m + 1]);
    SlotsStepBelow(left, right, q, m, left', right', lr.0, lr.1);
    SlotsStepFrame(left, right, q, m, left', right', lr.0, lr.1);
  }

  lemma SlotsStepBelow(left: seq<int>, right: seq<int>, q: seq<int>, m: int, left': seq<int>, right': seq<int>,
                       l2: seq<int>, r2: seq<int>)
    requires |left| == |right| && |left'| == |left| && |right'| == |left| && 0 <= m < |q| - 1
    requires forall i :: 0 <= i < |q| ==> 0 <= q[i] < |left|
    requires q[m] != q[m + 1] && (l2, r2) == TurnEdge(left', right', q[m], q[m + 1])
    requires forall j :: 0 <= j < m ==> q[j] != q[m] && q[j] != q[m + 1]
    requires forall j :: 0 <= j < m ==> (left'[q[j]], right'[q[j]]) == RerootSlots(left, right, q, j)
    requires (left'[q[m]], right'[q[m]]) == Entered(left, right, q, m)
    ensures forall j :: 0 <= j <= m ==> (l2[q[j]], r2[q[j]]) == RerootSlots(left, right, q, j)
  {
    forall j | 0 <= j < m
      ensures (l2[q[j]], r2[q[j]]) == RerootSlots(left, right, q, j)
    {
      assert l2[q[j]] == left'[q[j]] && r2[q[j]] == right'[q[j]];
    }
  }

  lemma SlotsStepFrame(left: seq<int>, right: seq<int>, q: seq<int>, m: int, left': seq<int>, right': seq<int>,
                       l2: seq<int>, r2: seq<int>)
    requires |left| == |right| && |left'| == |left| && |right'| == |left| && 0 <= m < |q| - 1
    requires forall i :: 0 <= i < |q| ==> 0 <= q[i] < |left|
    requires q[m] != q[m + 1] && !Among(q, m + 1, q[m + 1]) && (l2, r2) == TurnEdge(left', right', q[m], q[m + 1])
    requires forall x :: 0 <= x < |left| && !Among(q, m + 1, x) ==> left'[x] == left[x] && right'[x] == right[x]
    ensures (l2[q[m + 1]], r2[q[m + 1]]) == Entered(left, right, q, m + 1)
    ensures forall x :: 0 <= x < |left| && !Among(q, m + 2, x) ==> l2[x] == left[x] && r2[x] == right[x]
  {
  }

  lemma ParentsStep(parent: seq<int>, q: seq<int>, m: int, parent': seq<int>)
    requires |parent'| == |parent| && 0 <= m < |q| - 1
    requires forall i :: 0 <= i < |q| ==> 0 <= q[i] < |parent|
    requires forall i, i' :: Apart(q, i, i')
    requires ParentsTurned(parent, q, m, parent')
    ensures ParentsTurned(parent, q, m + 1, parent'[q[m + 1] := q[m]])
  {
    var p2 := parent'[q[m + 1] := q[m]];
    forall j | 1 <= j <= m + 1
      ensures ParentPrev(p2, q, j)
    {
      if j <= m {
        assert ParentPrev(parent', q, j) && Apart(q, j, m + 1);
      }
    }
    assert Apart(q, 0, m + 1);
    AmongIndex(q, m + 1, q[m + 1]);
  }

  /** x is one of q[0], ..., q[n-1]. */
  predicate Among(q: seq<int>, n: nat, x: int)
    requires n <= |q|
  {
    n > 0 && (q[n - 1] == x || Among(q, n - 1, x))
  }

  lemma {:induction false} AmongIndex(q: seq<int>, n: nat, x: int)
    requires n <= |q|
    ensures Among(q, n, x) <==> exists j :: 0 <= j < n && q[j] == x
  {
    if n > 0 {
      AmongIndex(q, n - 1, x);
    }
  }

  lemma TurnedDoneSlots(left: seq<int>, right: seq<int>, q: seq<int>, left': seq<int>, right': seq<int>)
    requires |left| == |right| && |left'| == |left| && |right'| == |left| && 1 <= |q|
    requires forall i :: 0 <= i < |q| ==> 0 <= q[i] < |left|
    requires SlotsTurned(left, right, q, |q| - 1, left', right')
    ensures forall j {:trigger left'[q[j]]} {:trigger right'[q[j]]} :: 0 <= j < |q| ==> (left'[q[j]], right'[q[j]]) == RerootSlots(left, right, q, j)
    ensures forall x :: 0 <= x < |left| && x !in q ==> left'[x] == left[x] && right'[x] == right[x]
  {
    NotAmong(q);
  }

  lemma NotAmong(q: seq<int>)
    ensures forall x :: x !in q ==> !Among(q, |q|, x)
  {
    forall x | x !in q
      ensures !Among(q, |q|, x)
    {
      AmongIndex(q, |q|, x);
    }
  }

  lemma TurnedDoneParents(parent: seq<int>, q: seq<int>, parent': seq<int>, parent'': seq<int>)
    requires |parent'| == |parent| && 1 <= |q|
    requires forall i :: 0 <= i < |q| ==> 0 <= q[i] < |parent|
    requires parent'' == parent'[q[0] := NIL]
    requires forall i, i' :: Apart(q, i, i')
    requires ParentsTurned(parent, q, |q| - 1, parent')
    ensures forall j :: 1 <= j < |q| ==> ParentPrev(parent'', q, j)
    ensures forall x :: 0 <= x < |parent| && x !in q ==> parent''[x] == parent[x]
  {
    NotAmong(q);
    forall j | 1 <= j < |q|
      ensures ParentPrev(parent'', q, j)
    {
      assert ParentPrev(parent', q, j) && Apart(q, j, 0);
    }
  }

  /** The links after modifyTree re-rooted the arena P, L, R at Ances = path[0] under
      the new node NEWROOT, index |P|. */
  ghost predicate LinksRerooted(path: seq<int>, P: seq<int>, L: seq<int>, R: seq<int>,
                                P': seq<int>, L': seq<int>, R': seq<int>)
    requires |L| == |P| && |R| == |P| && ChainPath(P, path) && |path| >= 2
  {
    var nr := |P|;
    |P'| == nr + 1 && |L'| == nr + 1 && |R'| == nr + 1 &&
    Links(P', nr + 1) && Links(L', nr + 1) && Links(R', nr + 1) &&
    P'[nr] == NIL &&
    (L'[nr], R'[nr]) == (if R[path[1]] == path[0] then (path[1], path[0]) else (path[0], path[1])) &&
    SlotsRerooted(path, L, R, L', R') && ParentsRerooted(path, P, P')
  }

  /** The whole of modifyTree's effect on links and branch lengths: the links are
      re-rooted (LinksRerooted); NEWROOT and Ances get branch length 0, every other node
      of the chain takes its former child's length, and the rest keep theirs. */
  ghost predicate Remodelled(path: seq<int>, P: seq<int>, L: seq<int>, R: seq<int>, D: seq<real>,
                             P': seq<int>, L': seq<int>, R': seq<int>, D': seq<real>)
    requires |L| == |P| && |R| == |P| && |D| == |P| && ChainPath(P, path) && |path| >= 2
  {
    LinksRerooted(path, P, L, R, P', L', R') &&
    |D'| == |P| + 1 && D'[|P|] == 0.0 && D'[path[0]] == 0.0 &&
    (forall m {:trigger D'[path[m]]} :: 1 <= m < |path| ==> D'[path[m]] == D[path[m - 1]]) &&
    forall x :: 0 <= x < |P| && x !in path ==> D'[x] == D[x]
  }

  /** The child slots after re-rooting: Ances keeps its children, the chain above it
      is turned (see Rerooted), and every node off the chain keeps its children. */
  ghost predicate SlotsRerooted(path: seq<int>, L: seq<int>, R: seq<int>, L': seq<int>, R': seq<int>)
    requires |R| == |L| && |L'| == |L| + 1 && |R'| == |L| + 1 && |path| >= 2
    requires forall j :: 0 <= j < |path| ==> 0 <= path[j] < |L|
  {
    L'[path[0]] == L[path[0]] && R'[path[0]] == R[path[0]] &&
    (forall m :: 1 <= m < |path| ==> (L'[path[m]], R'[path[m]]) == Rerooted(L, R, path, m)) &&
    forall x :: 0 <= x < |L| && x !in path ==> L'[x] == L[x] && R'[x] == R[x]
  }

  /** The parent links after re-rooting: Ances hangs under NEWROOT (index |P|), the
      old parent of Ances becomes a root of the turned chain, the chain's links are
      reversed, and every node off the chain keeps its parent. */
  ghost predicate ParentsRerooted(path: seq<int>, P: seq<int>, P': seq<int>)
    requires |P'| == |P| + 1 && |path| >= 2
    requires forall j :: 0 <= j < |path| ==> 0 <= path[j] < |P|
  {
    P'[path[0]] == |P| && P'[path[1]] == NIL && (forall m :: 2 <= m < |path| ==> ParentPrev(P', path, m)) &&
    forall x :: 0 <= x < |P| && x !in path ==> P'[x] == P[x]
  }

  /** q is path without its first node. */
  lemma TailFacts(path: seq<int>, q: seq<int>)
    requires |path| >= 1 && q == path[1..]
    requires forall m, m' :: Apart(path, m, m')
    ensures |q| == |path| - 1 && forall j :: 0 <= j < |q| ==> q[j] == path[j + 1]
    ensures forall x :: x in q ==> x in path
    ensures path[0] !in q
    ensures forall i, i' :: Apart(q, i, i')
  {
    forall j | 0 <= j < |q|
      ensures q[j] != path[0]
    {
      assert Apart(path, 0, j + 1);
    }
    forall i, i'
      ensures Apart(q, i, i')
    {
      assert Apart(path, i + 1, i' + 1);
    }
    forall x | x in q
      ensures x in path
    {
      var j :| 0 <= j < |q| && q[j] == x;
      assert path[j + 1] == x;
    }
  }

  lemma RewiredSlots(left: seq<int>, right: seq<int>, path: seq<int>, q: seq<int>,
                     l1: seq<int>, r1: seq<int>, l3: seq<int>, r3: seq<int>, l: seq<int>, r: seq<int>)
    requires |right| == |left| && |path| >= 2 && forall j :: 0 <= j < |path| ==> 0 <= path[j] < |left|
    requires forall m, m' :: Apart(path, m, m')
    requires |q| == |path| - 1 && (forall j :: 0 <= j < |q| ==> q[j] == path[j + 1])
    requires (forall x :: x in q ==> x in path) && path[0] !in q && |left| !in q
    requires |l1| == |left| + 1 && |r1| == |left| + 1
    requires (l1[path[1]], r1[path[1]]) == Detach((left[path[1]], right[path[1]]), path[0])
    requires forall x :: 0 <= x < |left| && x != path[1] ==> l1[x] == left[x] && r1[x] == right[x]
    requires (l1[|left|], r1[|left|]) == if right[path[1]] == path[0] then (NIL, path[0]) else (path[0], NIL)
    requires |l3| == |l1| && |r3| == |l1|
    requires forall j {:trigger l3[q[j]]} {:trigger r3[q[j]]} :: 0 <= j < |q| ==> (l3[q[j]], r3[q[j]]) == RerootSlots(l1, r1, q, j)
    requires forall x :: 0 <= x < |l1| && x !in q ==> l3[x] == l1[x] && r3[x] == r1[x]
    requires (l, r) == if l3[|left|] == NIL then (l3[|left| := path[1]], r3) else (l3, r3[|left| := path[1]])
    ensures |l| == |left| + 1 && |r| == |left| + 1
    ensures (l[|left|], r[|left|]) == if right[path[1]] == path[0] then (path[1], path[0]) else (path[0], path[1])
    ensures SlotsRerooted(path, left, right, l, r)
  {
    assert Apart(path, 0, 1);
    forall m | 1 <= m < |path|
      ensures (l[path[m]], r[path[m]]) == Rerooted(left, right, path, m)
    {
      assert path[m] == q[m - 1] && Apart(path, 1, m);
      assert (l3[q[m - 1]], r3[q[m - 1]]) == RerootSlots(l1, r1, q, m - 1);
    }
  }

  lemma RewiredParents(parent: seq<int>, path: seq<int>, q: seq<int>, p1: seq<int>, p3: seq<int>)
    requires |path| >= 2 && forall j :: 0 <= j < |path| ==> 0 <= path[j] < |parent|
    requires |q| == |path| - 1 && (forall j :: 0 <= j < |q| ==> q[j] == path[j + 1])
    requires (forall x :: x in q ==> x in path) && path[0] !in q && |parent| !in q
    requires |p1| == |parent| + 1 && p1[path[0]] == |parent| && p1[|parent|] == NIL
    requires forall x :: 0 <= x < |parent| && x != path[0] ==> p1[x] == parent[x]
    requires |p3| == |p1| && p3[q[0]] == NIL && (forall j :: 1 <= j < |q| ==> ParentPrev(p3, q, j))
    requires forall x :: 0 <= x < |p1| && x !in q ==> p3[x] == p1[x]
    ensures p3[|parent|] == NIL && ParentsRerooted(path, parent, p3)
  {
    forall m | 2 <= m < |path|
      ensures ParentPrev(p3, path, m)
    {
      assert ParentPrev(p3, q, m - 1);
    }
  }

  /** The state of readTreeString between two symbols: the position `pos`, the current
      node `p`, the stack, the IN counter, the last branch length `dcap`, the nodes so
      far and Ances. */
  datatype Reader = Reader(pos: nat, p: int, stack: seq<int>, count: nat, dcap: real,
                           parent: seq<int>, left: seq<int>, right: seq<int>, dist: seq<real>,
                           name: seq<Label>, ances: int)

  ghost predicate ReaderInv(s: string, st: Reader)
  {
    st.pos <= Stop(s) && -1 <= st.p < |st.parent| && -1 <= st.ances < |st.parent| &&
    Arena(st.parent, st.left, st.right, st.dist, st.name) &&
    (st.ances != NIL ==> MarksAncestor(s)) &&
    |st.stack| == Depth(s[..st.pos]) && Nonneg(s, st.pos) &&
    Naming(st.name, st.stack, st.count)
  }

  /** Reading stops at Stop(s) with an empty stack: the text read is balanced. */
  lemma BalancedAtStop(s: string, pos: int)
    requires 0 <= pos <= Stop(s) && (pos == |s| || s[pos] == ';')
    requires Depth(s[..pos]) == 0 && Nonneg(s, pos)
    ensures pos == Stop(s) && Balanced(s[..Stop(s)])
  {
    forall i | 0 <= i <= pos
      ensures Depth(s[..pos][..i]) >= 0
    {
      assert s[..pos][..i] == s[..i];
    }
  }

  /** The reader after a leaf name at st.pos. */
  function LeafRead(s: string, st: Reader): (nx: Reader)
    requires ReaderInv(s, st) && st.pos < |s| && !Sep(s[st.pos])
    ensures ReaderInv(s, nx) && nx.pos > st.pos && (nx.pos < |s| ==> Sep(s[nx.pos]))
  {
    var e := NameEnd(s, st.pos);
    DepthSpan(s, st.pos, e);
    NamingLeaf(st.name, st.stack, st.count, s[st.pos..e]);
    st.(pos := e, p := |st.parent|,
        parent := st.parent + [NIL], left := st.left + [NIL], right := st.right + [NIL],
        dist := st.dist + [0.0], name := st.name + [Given(s[st.pos..e])])
  }

  /** A leaf: a new node named by the text up to the next separator becomes current. */
  method ReadLeaf(s: string, st: Reader) returns (st': Reader)
    requires ReaderInv(s, st) && st.pos < |s| && !Sep(s[st.pos])
    ensures st' == LeafRead(s, st)
    ensures ReaderInv(s, st') && st'.pos > st.pos && (st'.pos < |s| ==> Sep(s[st'.pos]))
    ensures st'.p == |st.parent| && st'.name == st.name + [Given(s[st.pos..st'.pos])]
    ensures st'.parent == st.parent + [NIL] && st'.left == st.left + [NIL] && st'.right == st.right + [NIL]
    ensures st'.stack == st.stack && st'.count == st.count && st'.ances == st.ances && st'.dcap == st.dcap
  {
    var pos := ScanName(s, st.pos);
    DepthSpan(s, st.pos, pos);
    NamingLeaf(st.name, st.stack, st.count, s[st.pos..pos]);
    st' := st.(pos := pos, p := |st.parent|,
               parent := st.parent + [NIL], left := st.left + [NIL], right := st.right + [NIL],
               dist := st.dist + [0.0], name := st.name + [Given(s[st.pos..pos])]);
  }

  /** The scan of a name or number from `from` finds no separator before the end of
      the text, where the source's scan would go on past the terminator. */
  predicate RunsOff(s: string, from: nat)
    requires from <= |s|
  {
    NameEnd(s, from) == |s|
  }

  /** The reader after ':' at st.pos: the text up to the next separator, parsed by
      `num`, becomes dcap; None when it does not parse or no separator follows. */
  function LengthRead(s: string, num: string -> Option<real>, st: Reader): (r: Option<Reader>)
    requires ReaderInv(s, st) && st.pos < |s| && s[st.pos] == ':'
    ensures r.Some? ==> ReaderInv(s, r.value) && r.value.pos > st.pos
    ensures r.Some? ==> r.value.pos < |s| && Sep(s[r.value.pos])
    ensures RunsOff(s, st.pos + 1) ==> r.None?
  {
    ReadOne(s, st.pos);
    var e := NameEnd(s, st.pos + 1);
    DepthSpan(s, st.pos + 1, e);
    if e == |s| then None
    else match num(s[st.pos + 1..e])
      case None => None
      case Some(d) => Some(st.(pos := e, dcap := d))
  }

  /** ':': the branch length that follows is parsed into dcap. */
  method ReadLength(s: string, num: string -> Option<real>, st: Reader) returns (r: Result<Reader>)
    requires ReaderInv(s, st) && st.pos < |s| && s[st.pos] == ':'
    ensures r.Ok? <==> LengthRead(s, num, st).Some?
    ensures r.Ok? ==> r.value == LengthRead(s, num, st).value
    ensures r.Ok? ==> ReaderInv(s, r.value) && r.value.pos > st.pos
  {
    ReadOne(s, st.pos);
    var start := st.pos + 1;
    var pos := ScanName(s, start);
    DepthSpan(s, start, pos);
    if pos == |s| {
      return Fatal("branch length runs past the end");
    }
    var d := num(s[start..pos]);
    if d.None? {
      return Fatal("cannot parse branch length");
    }
    r := Ok(st.(pos := pos, dcap := d.value));
  }

  /** The reader after '(': a new unnamed node is pushed and becomes current. */
  function Opened(st: Reader): Reader
  {
    var p := |st.parent|;
    st.(pos := st.pos + 1, p := p, stack := st.stack + [p],
        parent := st.parent + [NIL], left := st.left + [NIL], right := st.right + [NIL],
        dist := st.dist + [0.0], name := st.name + [NoName])
  }

  lemma OpenedInv(s: string, st: Reader)
    requires ReaderInv(s, st) && st.pos < |s| && s[st.pos] == '('
    ensures ReaderInv(s, Opened(st))
  {
    ReadOne(s, st.pos);
    NamingOpen(st.name, st.stack, st.count);
  }

  /** The reader after ',': the current node becomes the left child of the stack top. */
  function Attached(st: Reader, alpha: real): Reader
    requires |st.stack| > 0 && 0 <= st.p < |st.parent| && |st.dist| == |st.parent|
    requires |st.left| == |st.parent| && 0 <= st.stack[|st.stack| - 1] < |st.parent|
  {
    var q := st.stack[|st.stack| - 1];
    st.(pos := st.pos + 1, left := st.left[q := st.p], parent := st.parent[st.p := q],
        dist := st.dist[st.p := st.dcap * alpha])
  }

  lemma AttachedInv(s: string, st: Reader, alpha: real)
    requires ReaderInv(s, st) && st.pos < |s| && s[st.pos] == ',' && |st.stack| > 0 && st.p != NIL
    ensures ReaderInv(s, Attached(st, alpha))
  {
    ReadOne(s, st.pos);
    var q := st.stack[|st.stack| - 1];
    LinksSet(st.left, |st.parent|, q, st.p);
    LinksSet(st.parent, |st.parent|, st.p, q);
  }

  /** The reader after the separator at st.pos; None where the reading aborts. */
  function SymbolRead(s: string, alpha: real, num: string -> Option<real>, st: Reader): (r: Option<Reader>)
    requires ReaderInv(s, st) && st.pos < |s| && Sep(s[st.pos])
    ensures r.Some? ==> ReaderInv(s, r.value)
    ensures r.Some? ==> if s[st.pos] == ';' then r.value == st else r.value.pos > st.pos
  {
    var c := s[st.pos];
    if c == ':' then LengthRead(s, num, st)
    else if c == '(' then
      if |st.stack| + 1 > STACKSZ then None else OpenedInv(s, st); Some(Opened(st))
    else if c == ',' then
      if |st.stack| == 0 || st.p == NIL then None else AttachedInv(s, st, alpha); Some(Attached(st, alpha))
    else if c == ')' then
      if |st.stack| == 0 || st.p == NIL || CloseRunsOff(s, st.pos) then None else Some(CloseRead(s, alpha, st))
    else Some(st)
  }

  /** The separator at `pos`: ':' reads a length, '(' opens a node, ',' and ')' attach
      the current node to the stack top, and ';' ends the reading. */
  method ReadSymbol(s: string, alpha: real, num: string -> Option<real>, st: Reader) returns (r: Result<Reader>)
    requires ReaderInv(s, st) && st.pos < |s| && Sep(s[st.pos])
    ensures r.Ok? <==> SymbolRead(s, alpha, num, st).Some?
    ensures r.Ok? ==> r.value == SymbolRead(s, alpha, num, st).value
    ensures r.Ok? ==> ReaderInv(s, r.value)
    ensures r.Ok? ==> if s[st.pos] == ';' then r.value == st else r.value.pos > st.pos
    ensures s[st.pos] == ';' || s[st.pos] == '(' ==> r.Ok? || |st.stack| + 1 > STACKSZ
    ensures (s[st.pos] == ',' || s[st.pos] == ')') && r.Ok? ==> |st.stack| > 0 && st.p != NIL
  {
    var c := s[st.pos];
    if c == ':' {
      r := ReadLength(s, num, st);
    } else if c == '(' {
      if |st.stack| + 1 > STACKSZ {
        return Fatal("stack overflow");
      }
      OpenedInv(s, st);
      r := Ok(Opened(st));
    } else if c == ',' {
      if |st.stack| == 0 || st.p == NIL {
        return Fatal("no open node");
      }
      AttachedInv(s, st, alpha);
      r := Ok(Attached(st, alpha));
    } else if c == ')' {
      if |st.stack| == 0 || st.p == NIL {
        return Fatal("no open node");
      }
      r := Close(s, alpha, st);
      if r.Fatal? {
        return;
      }
    } else {
      r := Ok(st);
    }
  }

  /** The reader after ')' at st.pos, with the name text s[start..pos] (after an '@'
      when `marked`) giving label l. */
  function Closed(st: Reader, pos: nat, count: nat, anc: int, l: Label, alpha: real): Reader
    requires |st.stack| > 0 && 0 <= st.p < |st.parent| && 0 <= st.stack[|st.stack| - 1] < |st.parent|
    requires |st.right| == |st.parent| && |st.dist| == |st.parent| && |st.name| == |st.parent|
  {
    var q := st.stack[|st.stack| - 1];
    st.(pos := pos, p := q, stack := st.stack[..|st.stack| - 1], count := count, ances := anc,
        right := st.right[q := st.p], parent := st.parent[st.p := q],
        dist := st.dist[st.p := st.dcap * alpha], name := st.name[q := l])
  }

  /** One character other than ';' read at i: the depth moves by it and stays within
      the reading. */
  lemma ReadOne(s: string, i: nat)
    requires i < |s| && s[i] != ';' && i <= Stop(s) && Nonneg(s, i)
    requires s[i] == '(' || Depth(s[..i]) > 0 || s[i] != ')'
    ensures i + 1 <= Stop(s) && Nonneg(s, i + 1)
    ensures Depth(s[..i + 1]) == Depth(s[..i]) + (if s[i] == '(' then 1 else if s[i] == ')' then -1 else 0)
  {
    DepthStep(s, i);
    NonnegStep(s, i);
    var e := Stop(s);
    assert i < e;
  }

  /** The text read by ')' keeps the depth and the reading position within bounds. */
  lemma ClosedText(s: string, at: nat, d: nat, marked: bool, start: nat, pos: nat)
    requires at <= Stop(s) && d == Depth(s[..at]) && Nonneg(s, at)
    requires at < |s| && s[at] == ')' && d > 0
    requires start == (if marked then at + 2 else at + 1) && start <= pos <= |s|
    requires marked ==> s[at + 1] == '@'
    requires forall i :: start <= i < pos ==> !Sep(s[i])
    ensures pos <= Stop(s) && d - 1 == Depth(s[..pos]) && Nonneg(s, pos)
  {
    ReadOne(s, at);
    if marked {
      ReadOne(s, at + 1);
    }
    DepthSpan(s, start, pos);
  }

  /** The nodes after ')': still an arena with the naming invariant. */
  lemma ClosedNodes(st: Reader, count: nat, l: Label, alpha: real)
    requires Arena(st.parent, st.left, st.right, st.dist, st.name) && -1 <= st.p < |st.parent|
    requires Naming(st.name, st.stack, st.count) && |st.stack| > 0 && st.p != NIL
    requires (l.Given? && count == st.count) || (l == Auto(count) && count == st.count + 1)
    ensures var nx := Closed(st, 0, count, st.ances, l, alpha);
      Arena(nx.parent, nx.left, nx.right, nx.dist, nx.name) && Naming(nx.name, nx.stack, nx.count)
  {
    var q := st.stack[|st.stack| - 1];
    NamingClose(st.name, st.stack, st.count, l);
    LinksSet(st.right, |st.parent|, q, st.p);
    LinksSet(st.parent, |st.parent|, st.p, q);
  }

  /** A ')' at `at` directly followed by '@' marks an ancestor. */
  lemma MarkedAt(s: string, at: nat, marked: bool)
    requires marked ==> at + 1 < |s| && s[at] == ')' && s[at + 1] == '@'
    ensures marked ==> MarksAncestor(s)
  {
    if marked {
      assert s[at + 1 - 1] == ')' && s[at + 1] == '@';
    }
  }

  /** The name after the ')' at `at` (after an optional '@') finds no separator before
      the end of the text. */
  predicate CloseRunsOff(s: string, at: nat)
    requires at < |s|
  {
    var start := if at + 1 < |s| && s[at + 1] == '@' then at + 2 else at + 1;
    RunsOff(s, start)
  }

  /** The reader after ')' at st.pos: the popped stack top, named by the text that
      follows (after an optional '@' that makes it Ances) or by the next IN<k>. */
  function CloseRead(s: string, alpha: real, st: Reader): (nx: Reader)
    requires ReaderInv(s, st) && st.pos < |s| && s[st.pos] == ')' && |st.stack| > 0 && st.p != NIL
    ensures ReaderInv(s, nx) && nx.pos > st.pos
    ensures nx.pos == |s| <==> CloseRunsOff(s, st.pos)
  {
    var q := st.stack[|st.stack| - 1];
    var marked := st.pos + 1 < |s| && s[st.pos + 1] == '@';
    var start := if marked then st.pos + 2 else st.pos + 1;
    var e := NameEnd(s, start);
    var count := if e == start then st.count + 1 else st.count;
    var l := if e == start then Auto(count) else Given(s[start..e]);
    ClosedText(s, st.pos, |st.stack|, marked, start, e);
    ClosedNodes(st, count, l, alpha);
    MarkedAt(s, st.pos, marked);
    Closed(st, e, count, if marked then q else st.ances, l, alpha)
  }

  /** ')': the current node becomes the right child of the popped stack top, which is
      named by the text that follows (after an optional '@' that makes it Ances) or by
      the next IN<k>, and becomes current. */
  method Close(s: string, alpha: real, st: Reader) returns (r: Result<Reader>)
    requires ReaderInv(s, st) && st.pos < |s| && s[st.pos] == ')' && |st.stack| > 0 && st.p != NIL
    ensures r.Ok? <==> !CloseRunsOff(s, st.pos)
    ensures r.Ok? ==> r.value == CloseRead(s, alpha, st)
    ensures r.Ok? ==> ReaderInv(s, r.value) && r.value.pos > st.pos
    ensures r.Ok? ==> r.value.p == st.stack[|st.stack| - 1] && r.value.right == st.right[r.value.p := st.p]
    ensures r.Ok? ==> r.value.name[r.value.p] != NoName
  {
    var q := st.stack[|st.stack| - 1];
    var pos := st.pos + 1;
    var anc := st.ances;
    var marked := pos < |s| && s[pos] == '@';
    if marked {
      anc := q;
      pos := pos + 1;
    }
    var start := pos;
    pos := ScanName(s, start);
    if pos == |s| {
      return Fatal("name runs past the end");
    }
    var count := st.count;
    var l := Given(s[start..pos]);
    if pos == start {
      count := count + 1;
      l := Auto(count);
    }
    ClosedText(s, st.pos, |st.stack|, marked, start, pos);
    ClosedNodes(st, count, l, alpha);
    MarkedAt(s, st.pos, marked);
    r := Ok(Closed(st, pos, count, anc, l, alpha));
  }

  /** The reader before the first symbol: nothing read, no node, no Ances. */
  const Unread := Reader(0, NIL, [], 0, 0.0, [], [], [], [], [], NIL)

  lemma UnreadInv(s: string)
    ensures ReaderInv(s, Unread)
  {
    assert s[..0] == [];
  }

  /** The reading from st on: an optional leaf name, then a separator, until ';' or the
      end of the string, where the stack must be empty; None where the reading aborts
      (a leaf name that runs to the end, a failed symbol, an unbalanced tree). */
  function ReadFrom(s: string, alpha: real, num: string -> Option<real>, st: Reader): (r: Option<Reader>)
    requires ReaderInv(s, st)
    ensures r.Some? ==> Built(s, r.value)
    decreases |s| - st.pos
  {
    if st.pos < |s| && s[st.pos] != ';' then
      var st1 := if !Sep(s[st.pos]) then LeafRead(s, st) else st;
      if st1.pos == |s| then None
      else match SymbolRead(s, alpha, num, st1)
        case None => None
        case Some(nx) => ReadFrom(s, alpha, num, nx)
    else if |st.stack| != 0 then None
    else
      BalancedAtStop(s, st.pos);
      NamingDone(st.name, st.count);
      Some(st)
  }

  /** From a reader with text left, or with an open node, a text without ';' is
      refused: some scan runs off its end, or the stack is still open there. */
  lemma {:induction false} UnstoppedFrom(s: string, alpha: real, num: string -> Option<real>, st: Reader)
    requires ReaderInv(s, st) && forall i :: 0 <= i < |s| ==> s[i] != ';'
    requires st.pos < |s| || |st.stack| > 0
    ensures ReadFrom(s, alpha, num, st).None?
    decreases |s| - st.pos
  {
    if st.pos < |s| {
      var st1 := if !Sep(s[st.pos]) then LeafRead(s, st) else st;
      if st1.pos < |s| {
        var r := SymbolRead(s, alpha, num, st1);
        if r.Some? {
          assert r.value.pos < |s| || |r.value.stack| > 0;
          UnstoppedFrom(s, alpha, num, r.value);
        }
      }
    }
  }

  /** readTreeString relies on the closing ';': a non-empty text without one is
      refused. */
  lemma NeedsStop(s: string, alpha: real, num: string -> Option<real>)
    requires |s| > 0 && forall i :: 0 <= i < |s| ==> s[i] != ';'
    ensures Parsed(s, alpha, num).None?
  {
    UnreadInv(s);
    UnstoppedFrom(s, alpha, num, Unread);
  }

  /** The whole reading of the tree string. */
  function Parsed(s: string, alpha: real, num: string -> Option<real>): (r: Option<Reader>)
    ensures r.Some? ==> Built(s, r.value)
  {
    UnreadInv(s);
    ReadFrom(s, alpha, num, Unread)
  }

  /** The reading loop of readTreeString.  On success the text up to Stop(s) is read
      and the stack is empty. */
  method Read(s: string, alpha: real, num: string -> Option<real>) returns (r: Result<Reader>)
    ensures r.Ok? <==> Parsed(s, alpha, num).Some?
    ensures r.Ok? ==> r.value == Parsed(s, alpha, num).value
    ensures r.Ok? ==> Built(s, r.value)
  {
    var st := Unread;
    UnreadInv(s);
    while st.pos < |s| && s[st.pos] != ';'
      invariant ReaderInv(s, st)
      invariant ReadFrom(s, alpha, num, st) == Parsed(s, alpha, num)
      decreases |s| - st.pos
    {
      if !Sep(s[st.pos]) {
        st := ReadLeaf(s, st);
      }
      if st.pos == |s| {
        return Fatal("illegal symbol");
      }
      var next := ReadSymbol(s, alpha, num, st);
      if next.Fatal? {
        return Fatal(next.msg);
      }
      st := next.value;
    }
    if |st.stack| != 0 {
      return Fatal("unbalanced tree");
    }
    BalancedAtStop(s, st.pos);
    NamingDone(st.name, st.count);
    r := Ok(st);
  }

  /** What a successful read leaves: an arena whose current node is the root, Ances (if
      marked) a node, the parentheses balanced and the names complete. */
  ghost predicate Built(s: string, st: Reader)
  {
    -1 <= st.p < |st.parent| && -1 <= st.ances < |st.parent| &&
    Arena(st.parent, st.left, st.right, st.dist, st.name) &&
    (st.ances != NIL ==> MarksAncestor(s)) && Balanced(s[..Stop(s)]) && WellNamed(st.name)
  }

  /** Every node is named, and the generated names are IN1..IN<k> for some k, each used
      once. */
  ghost predicate WellNamed(name: seq<Label>)
  {
    (forall k :: 0 <= k < |name| ==> name[k] != NoName) &&
    (forall a, b :: 0 <= a < b < |name| && name[a].Auto? && name[b].Auto? ==> name[a].k != name[b].k) &&
    forall a :: 0 <= a < |name| && name[a].Auto? ==>
      forall m :: 1 <= m <= name[a].k ==> exists b :: 0 <= b < |name| && name[b] == Auto(m)
  }

  /** With no node open, every node is named and the generated names are IN1..IN<count>,
      each used once. */
  lemma NamingDone(name: seq<Label>, count: nat)
    requires Naming(name, [], count)
    ensures WellNamed(name)
  {
  }

  /** The whole tree state: an arena with an outgroup flag per node, and Phylo, Ances
      and every entry of `next` NULL or a node. */
  ghost predicate TreeShape(parent: seq<int>, left: seq<int>, right: seq<int>, dist: seq<real>,
                            name: seq<Label>, outgroup: seq<bool>, root: int, ances: int, order: seq<int>)
  {
    var n := |parent|;
    Arena(parent, left, right, dist, name) && |outgroup| == n &&
    -1 <= root < n && -1 <= ances < n && forall m :: 0 <= m < |order| ==> 0 <= order[m] < n
  }

  class Tree {
    var parent: seq<int>
    var left: seq<int>
    var right: seq<int>
    var dist: seq<real>
    var name: seq<Label>
    var outgroup: seq<bool>
    /** Phylo, the root. */
    var root: int
    /** Ances, the node the reconstruction is for. */
    var ances: int
    /** The `next` list of the nodes. */
    var order: seq<int>

    ghost predicate Valid()
      reads this
    {
      TreeShape(parent, left, right, dist, name, outgroup, root, ances, order)
    }

    constructor()
      ensures Valid() && parent == [] && root == NIL && ances == NIL && order == []
    {
      parent, left, right, dist, name, outgroup := [], [], [], [], [], [];
      root, ances, order := NIL, NIL, [];
    }

    /** allocTreeNode: a zeroed node without links, appended to the arena. */
    method Alloc(l: Label) returns (k: int)
      requires Valid()
      modifies this
      ensures Valid() && k == |old(parent)|
      ensures parent == old(parent) + [NIL] && left == old(left) + [NIL] && right == old(right) + [NIL]
      ensures dist == old(dist) + [0.0] && name == old(name) + [l] && outgroup == old(outgroup) + [false]
      ensures root == old(root) && ances == old(ances) && order == old(order)
    {
      k := |parent|;
      parent, left, right := parent + [NIL], left + [NIL], right + [NIL];
      dist, name, outgroup := dist + [0.0], name + [l], outgroup + [false];
    }

    /** isLeaf. */
    function IsLeaf(k: int): bool
      reads this
      requires Valid() && 0 <= k < |parent|
    {
      left[k] == NIL && right[k] == NIL
    }

    /** readTreeString: reads the tree with an explicit stack.  A name starts a leaf;
        ':' reads a branch length (the value `num` gives for the text up to the next
        separator); '(' opens a new node on the stack; ',' makes the current node the
        left child and ')' the right child of the stack top, the branch length being
        the last length read times alpha; ')' then pops that node, which becomes
        current, takes the name that follows or the next "IN<k>", and becomes Ances
        when '@' follows the ')'.  Reading stops at ';' or at the end. */
    method ReadTreeString(s: string, alpha: real, num: string -> Option<real>) returns (r: Result<int>)
      requires Valid() && parent == [] && ances == NIL
      modifies this
      ensures Valid()
      ensures r.Ok? <==> Parsed(s, alpha, num).Some?
      ensures r.Ok? ==> var t := Parsed(s, alpha, num).value;
        parent == t.parent && left == t.left && right == t.right && dist == t.dist && name == t.name &&
        root == t.p && ances == (if t.ances == NIL then t.p else t.ances)
      ensures r.Ok? ==> r.value == root && Balanced(s[..Stop(s)]) && WellNamed(name)
      ensures r.Ok? && !MarksAncestor(s) ==> ances == root
      ensures r.Fatal? ==> unchanged(this)
    {
      var res := Read(s, alpha, num);
      if res.Fatal? {
        return Fatal(res.msg);
      }
      Install(s, res.value);
      r := Ok(res.value.p);
    }

    /** The tree a successful read built becomes the arena, with no outgroup marks yet,
        Phylo at the root, Ances where '@' marked it (Phylo when nothing was marked) and
        `next` in preorder from Phylo (adjustTreeList). */
    method Install(ghost s: string, st: Reader)
      requires Built(s, st)
      modifies this
      ensures Valid() && root == st.p && WellNamed(name)
      ensures ances == if st.ances == NIL then st.p else st.ances
      ensures parent == st.parent && left == st.left && right == st.right && dist == st.dist && name == st.name
      ensures |outgroup| == |parent| && (forall k :: 0 <= k < |outgroup| ==> !outgroup[k])
      ensures order == Preorder(left, right, root, |parent|)
    {
      var a := if st.ances == NIL then st.p else st.ances;
      var o := Preorder(st.left, st.right, st.p, |st.parent|);
      var og := seq(|st.parent|, _ => false);
      parent, left, right, dist, name, outgroup, root, ances, order :=
        st.parent, st.left, st.right, st.dist, st.name, og, st.p, a, o;
    }

    /** The walk of identifyOutgroup from tr up the parent links: true when it reaches
        NULL before Ances. */
    static method OffChain(parent: seq<int>, tr: int, ances: int) returns (out: bool)
      requires Links(parent, |parent|) && 0 <= tr < |parent| && -1 <= ances < |parent|
      requires Up(parent, tr, |parent|) == NIL
      ensures out <==> !OnChain(parent, tr, ances)
    {
      var tt := tr;
      ghost var steps := 0;
      while tt != NIL && tt != ances
        invariant 0 <= steps <= |parent| && tt == Up(parent, tr, steps)
        invariant forall s' :: 0 <= s' < steps ==> Up(parent, tr, s') != ances
        decreases |parent| - steps
      {
        UpStep(parent, tr, steps);
        tt := parent[tt];
        steps := steps + 1;
      }
      if tt == NIL {
        forall s' | 0 <= s' <= |parent| && ances != NIL
          ensures Up(parent, tr, s') != ances
        {
          if s' >= steps {
            UpEnded(parent, tr, steps, s');
          }
        }
      }
      out := tt == NIL;
    }

    /** identifyOutgroup: walking the `next` list, each leaf is marked outgroup exactly
        when Ances is not on its parent chain (the leaf itself included). */
    method IdentifyOutgroup()
      requires Valid() && forall k :: 0 <= k < |parent| ==> Up(parent, k, |parent|) == NIL
      modifies this
      ensures Valid()
      ensures parent == old(parent) && left == old(left) && right == old(right) && dist == old(dist)
      ensures name == old(name) && root == old(root) && ances == old(ances) && order == old(order)
      ensures forall k :: 0 <= k < |parent| ==>
        outgroup[k] == if k in order && IsLeaf(k) then !OnChain(parent, k, ances) else old(outgroup[k])
    {
      var m := 0;
      while m < |order|
        invariant 0 <= m <= |order| && Valid()
        invariant parent == old(parent) && left == old(left) && right == old(right) && dist == old(dist)
        invariant name == old(name) && root == old(root) && ances == old(ances) && order == old(order)
        invariant forall k :: 0 <= k < |parent| ==>
          outgroup[k] == if k in order[..m] && IsLeaf(k) then !OnChain(parent, k, ances) else old(outgroup[k])
      {
        var tr := order[m];
        if IsLeaf(tr) {
          var out := OffChain(parent, tr, ances);
          outgroup := outgroup[tr := out];
        }
        assert order[..m + 1] == order[..m] + [tr];
        m := m + 1;
      }
      assert order[..m] == order;
    }

    /** modifyBranchLen(node, child), called on the chain path[m..] from child path[m-1]:
        each node of the chain takes the branch length its former child had.  It works
        on the branch lengths alone. */
    static method ModifyBranchLen(parent: seq<int>, dist: seq<real>, node: int, child: int,
                                  ghost path: seq<int>, ghost m: nat) returns (d: seq<real>)
      requires |dist| == |parent| && ChainPath(parent, path) && 1 <= m <= |path|
      requires node == (if m < |path| then path[m] else NIL) && child == path[m - 1]
      ensures |d| == |dist|
      ensures forall j {:trigger d[path[j]]} :: m <= j < |path| ==> d[path[j]] == dist[path[j - 1]]
      ensures forall x :: 0 <= x < |d| && x !in path[m..] ==> d[x] == dist[x]
      decreases |path| - m
    {
      if node == NIL {
        return dist;
      }
      assert m + 1 < |path| ==> ParentNext(parent, path, m);
      d := ModifyBranchLen(parent, dist, parent[node], node, path, m + 1);
      forall j | m + 1 <= j < |path|
        ensures path[j] != child && path[j] != node
      {
        assert Apart(path, m - 1, j) && Apart(path, m, j);
      }
      assert child !in path[m + 1..];
      d := d[node := d[child]];
    }

    /** The branch lengths of modifyTree, with a 0 appended for NEWROOT: every node of
        the chain above Ances takes its former child's length (modifyBranchLen) and
        Ances gets 0. */
    static method ShiftDist(parent: seq<int>, dist: seq<real>, ances: int, ghost path: seq<int>)
      returns (d: seq<real>)
      requires |dist| == |parent| && ChainPath(parent, path) && |path| >= 2 && path[0] == ances
      ensures |d| == |dist| + 1 && d[|dist|] == 0.0 && d[ances] == 0.0
      ensures forall m {:trigger d[path[m]]} :: 1 <= m < |path| ==> d[path[m]] == dist[path[m - 1]]
      ensures forall x :: 0 <= x < |dist| && x !in path ==> d[x] == dist[x]
    {
      var n := |parent|;
      var p := parent + [NIL];
      forall m | 0 <= m < |path| - 1
        ensures ParentNext(p, path, m)
      {
        assert ParentNext(parent, path, m);
      }
      assert ChainPath(p, path) && ParentNext(p, path, 0);
      var d1 := ModifyBranchLen(p, dist + [0.0], p[ances], ances, path, 1);
      d := d1[ances := 0.0];
      forall m | 1 <= m < |path|
        ensures d[path[m]] == dist[path[m - 1]]
      {
        assert Apart(path, 0, m) && d1[path[m]] == (dist + [0.0])[path[m - 1]];
      }
      forall x | 0 <= x < |dist| && x !in path
        ensures d[x] == dist[x]
      {
        assert x !in path[1..];
      }
    }

    /** rerootTree(node) on the chain q from node up to the old root: every node of the
        chain unlinks the child it was reached from and links its former parent, whose
        parent link is reversed; node ends without parent and is returned.  It works on
        the three link sequences. */
    static method RerootTree(parent: seq<int>, left: seq<int>, right: seq<int>, node: int, ghost q: seq<int>)
      returns (parent': seq<int>, left': seq<int>, right': seq<int>, r: int)
      requires |left| == |parent| && |right| == |parent| && ChainPath(parent, q) && node == q[0]
      requires Links(parent, |parent|) && Links(left, |parent|) && Links(right, |parent|)
      ensures |parent'| == |parent| && |left'| == |parent| && |right'| == |parent| && r == node
      ensures Links(parent', |parent|) && Links(left', |parent|) && Links(right', |parent|)
      ensures forall j {:trigger left'[q[j]]} {:trigger right'[q[j]]} :: 0 <= j < |q| ==> (left'[q[j]], right'[q[j]]) == RerootSlots(left, right, q, j)
      ensures forall x :: 0 <= x < |parent| && x !in q ==> left'[x] == left[x] && right'[x] == right[x]
      ensures parent'[node] == NIL && forall j :: 1 <= j < |q| ==> ParentPrev(parent', q, j)
      ensures forall x :: 0 <= x < |parent| && x !in q ==> parent'[x] == parent[x]
    {
      parent', left', right' := parent, left, right;
      var v := node;
      var p := parent[node];
      ghost var m := 0;
      r := node;
      assert |q| > 1 ==> ParentNext(parent, q, 0);
      while p != NIL
        invariant Turned(parent, left, right, q, m, parent', left', right')
        invariant Links(parent', |parent|) && Links(left', |parent|) && Links(right', |parent|)
        invariant v == q[m] && p == (if m < |q| - 1 then q[m + 1] else NIL)
        decreases |q| - m
      {
        assert Apart(q, m, m + 1);
        TurnedStep(parent, left, right, q, m, parent', left', right');
        assert m + 2 < |q| ==> ParentNext(parent, q, m + 1);
        var lr := TurnEdge(left', right', v, p);
        left', right' := lr.0, lr.1;
        var g := parent'[p];
        parent' := parent'[p := v];
        v, p := p, g;
        m := m + 1;
      }
      TurnedDoneSlots(left, right, q, left', right');
      ghost var last := parent';
      parent' := parent'[r := NIL];
      TurnedDoneParents(parent, q, last, parent');
    }

    /** The link rewiring of modifyTree: NEWROOT is appended at index |parent|; Ances
        (path[0]) is unlinked from its parent path[1] and hangs under NEWROOT on the
        side it had there; rerootTree turns the chain path[1..] around, and its top,
        path[1], goes into the free slot of NEWROOT. */
    static method Rewire(parent: seq<int>, left: seq<int>, right: seq<int>, ances: int, ghost path: seq<int>)
      returns (p: seq<int>, l: seq<int>, r: seq<int>)
      requires |left| == |parent| && |right| == |parent|
      requires Links(parent, |parent|) && Links(left, |parent|) && Links(right, |parent|)
      requires ChainPath(parent, path) && |path| >= 2 && path[0] == ances
      ensures LinksRerooted(path, parent, left, right, p, l, r)
    {
      var n := |parent|;
      var p1, l1, r1 := Unhook(parent, left, right, ances, path);
      ghost var q := path[1..];
      TailFacts(path, q);
      assert ParentNext(parent, path, 0);
      var p3, l3, r3, top := RerootTree(p1, l1, r1, parent[ances], q);
      p, l, r := p3, l3, r3;
      if l[n] == NIL {
        l := l[n := top];
      } else {
        r := r[n := top];
      }
      RewiredSlots(left, right, path, q, l1, r1, l3, r3, l, r);
      RewiredParents(parent, path, q, p1, p3);
    }

    /** The first half of modifyTree's rewiring: a new node n (NEWROOT) takes Ances in
        the slot Ances had under its parent nr, which loses it. */
    static method Unhook(parent: seq<int>, left: seq<int>, right: seq<int>, ances: int, ghost path: seq<int>)
      returns (p1: seq<int>, l1: seq<int>, r1: seq<int>)
      requires |left| == |parent| && |right| == |parent|
      requires Links(parent, |parent|) && Links(left, |parent|) && Links(right, |parent|)
      requires ChainPath(parent, path) && |path| >= 2 && path[0] == ances
      ensures |p1| == |parent| + 1 && |l1| == |parent| + 1 && |r1| == |parent| + 1
      ensures Links(p1, |parent| + 1) && Links(l1, |parent| + 1) && Links(r1, |parent| + 1)
      ensures (l1[path[1]], r1[path[1]]) == Detach((left[path[1]], right[path[1]]), path[0])
      ensures forall x :: 0 <= x < |parent| && x != path[1] ==> l1[x] == left[x] && r1[x] == right[x]
      ensures (l1[|parent|], r1[|parent|]) == if right[path[1]] == path[0] then (NIL, path[0]) else (path[0], NIL)
      ensures p1[path[0]] == |parent| && p1[|parent|] == NIL
      ensures forall x :: 0 <= x < |parent| && x != path[0] ==> p1[x] == parent[x]
      ensures ChainPath(p1, path[1..])
    {
      var n := |parent|;
      assert ParentNext(parent, path, 0) && Apart(path, 0, 1);
      var nr := parent[ances];
      p1, l1, r1 := parent + [NIL], left + [NIL], right + [NIL];
      if ances == r1[nr] {
        r1 := r1[n := ances];
        p1 := p1[ances := n];
        r1 := r1[nr := NIL];
      } else {
        l1 := l1[n := ances];
        p1 := p1[ances := n];
        l1 := l1[nr := NIL];
      }
      ghost var q := path[1..];
      TailFacts(path, q);
      forall m | 0 <= m < |q| - 1
        ensures ParentNext(p1, q, m)
      {
        assert ParentNext(parent, path, m + 1);
      }
    }

    /** modifyTree: re-roots the tree at Ances.  A new node NEWROOT (branch length 0)
        gets Ances, whose branch length becomes 0, on the side Ances had under its
        parent, and the chain above Ances, re-rooted, on the other side; each node of
        that chain takes its former child's branch length.  NEWROOT becomes both Ances
        and Phylo, and the `next` list is rebuilt in preorder from it. */
    method ModifyTree(ghost path: seq<int>)
      requires Valid() && ChainPath(parent, path) && |path| >= 2 && path[0] == ances
      modifies this
      ensures Valid() && root == old(|parent|) && ances == root
      ensures Remodelled(path, old(parent), old(left), old(right), old(dist), parent, left, right, dist)
      ensures name == old(name) + [Given("NEWROOT")] && outgroup == old(outgroup) + [false]
      ensures order == Preorder(left, right, root, |parent|)
    {
      var p, l, r, d := Remodel(parent, left, right, dist, ances, path);
      Adopt(p, l, r, d);
    }

    /** The end of modifyTree: the re-rooted links and branch lengths replace the old
        ones, NEWROOT (the node appended last) becomes Ances and Phylo, and `next` is
        rebuilt in preorder from it (adjustNextInTree). */
    method Adopt(p: seq<int>, l: seq<int>, r: seq<int>, d: seq<real>)
      requires Valid() && |p| == |parent| + 1 && |l| == |p| && |r| == |p| && |d| == |p|
      requires Links(p, |p|) && Links(l, |p|) && Links(r, |p|)
      modifies this
      ensures Valid() && parent == p && left == l && right == r && dist == d
      ensures name == old(name) + [Given("NEWROOT")] && outgroup == old(outgroup) + [false]
      ensures root == |old(parent)| && ances == root && order == Preorder(l, r, root, |p|)
    {
      var n := |parent|;
      var o := Preorder(l, r, n, n + 1);
      parent, left, right, dist, name, outgroup, ances, root, order :=
        p, l, r, d, name + [Given("NEWROOT")], outgroup + [false], n, n, o;
    }

    /** The links and branch lengths modifyTree leaves, on the arena's sequences. */
    static method Remodel(parent: seq<int>, left: seq<int>, right: seq<int>, dist: seq<real>, ances: int,
                          ghost path: seq<int>)
      returns (p: seq<int>, l: seq<int>, r: seq<int>, d: seq<real>)
      requires |left| == |parent| && |right| == |parent| && |dist| == |parent|
      requires Links(parent, |parent|) && Links(left, |parent|) && Links(right, |parent|)
      requires ChainPath(parent, path) && |path| >= 2 && path[0] == ances
      ensures Remodelled(path, parent, left, right, dist, p, l, r, d)
    {
      d := ShiftDist(parent, dist, ances, path);
      p, l, r := Rewire(parent, left, right, ances, path);
    }
  }
}
