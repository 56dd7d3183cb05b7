/** The doubly linked list of intervals (streams.go): a ring of elements through a sentinel.

    The ghost sequence `nodes` lists the elements from front to back.  Every operation is
    specified by what it does to `nodes`, and Valid() ties `nodes` to the pointers.
 */
module IntervalRing {
  import opened ByteIntervals

  class Element {
    var next: Element?
    var prev: Element?
    var list: IntervalList?
    const value: ByteInterval

    constructor (value: ByteInterval)
      ensures this.value == value && next == null && prev == null && list == null
    {
      this.value := value;
      next, prev, list := null, null, null;
    }

    /** The element after this one in the same list, or null. */
    method Next(ghost i: nat) returns (e: Element?)
      requires list != null ==> list.Valid() && i < |list.nodes| && this == list.nodes[i]
      ensures e == (if list != null && i + 1 < |list.nodes| then list.nodes[i + 1] else null)
    {
      if list != null {
        list.LinkAt(i);
        if i + 1 < |list.nodes| { list.LinkAt(i + 1); }
      }
      e := if list != null && next != list.root then next else null;
    }

    /** The element before this one in the same list, or null. */
    method Prev(ghost i: nat) returns (e: Element?)
      requires list != null ==> list.Valid() && i < |list.nodes| && this == list.nodes[i]
      ensures e == (if list != null && i > 0 then list.nodes[i - 1] else null)
    {
      if list != null {
        list.LinkAt(i);
        if i > 0 { list.LinkAt(i - 1); }
      }
      e := if list != null && prev != list.root then prev else null;
    }
  }

  /** Always true: names a position, so that an invariant is used only at the positions asked for. */
  ghost predicate At(t: int) {
    true
  }

  ghost predicate Distinct(s: seq<Element>) {
    forall i, j :: 0 <= i < j < |s| ==> s[i] != s[j]
  }

  /** The ring cut open at the sentinel, which stands at both ends. */
  ghost function ChainOf(root: Element, nodes: seq<Element>): (c: seq<Element>)
    ensures |c| == |nodes| + 2
  {
    seq(|nodes| + 2, i requires 0 <= i < |nodes| + 2 => if 1 <= i <= |nodes| then nodes[i - 1] else root)
  }

  /** Neighbours point at each other, except across the cuts. */
  ghost predicate LinkedExcept(c: seq<Element>, cuts: set<int>)
    reads c
  {
    forall i {:trigger At(i)} :: At(i) && 0 <= i < |c| - 1 && i !in cuts ==> c[i].next == c[i + 1] && c[i + 1].prev == c[i]
  }

  /** The pointer surgery of insert: e goes between at and its successor. */
  method LinkIn(e: Element, at: Element, ghost c: seq<Element>, ghost k: nat)
    requires k + 1 < |c| && at == c[k] && at.next == c[k + 1] && LinkedExcept(c, {})
    requires forall i :: 0 <= i < |c| - 1 && i != k ==> c[i] != c[k]
    requires forall i :: 1 <= i < |c| && i != k + 1 ==> c[i] != c[k + 1]
    requires forall i :: 0 <= i < |c| ==> c[i] != e
    modifies at`next, at.next`prev, e`next, e`prev
    ensures LinkedExcept(c, {k})
    ensures c[k].next == e && e.prev == c[k] && e.next == c[k + 1] && c[k + 1].prev == e
  {
    var n := at.next;
    at.next := e;
    e.prev := at;
    e.next := n;
    n.prev := e;
  }

  /** The pointer surgery of remove: the neighbours of e are joined and e is cut loose. */
  method LinkOut(e: Element, ghost c: seq<Element>, ghost k: nat)
    requires k + 2 < |c| && e == c[k + 1] && e.prev == c[k] && e.next == c[k + 2] && LinkedExcept(c, {})
    requires forall i :: 0 <= i < |c| - 1 && i != k ==> c[i] != c[k]
    requires forall i :: 0 <= i < |c| && i != k + 1 ==> c[i] != e
    requires forall i :: 1 <= i < |c| && i != k + 2 ==> c[i] != c[k + 2]
    modifies e.prev`next, e.next`prev, e`next, e`prev
    ensures LinkedExcept(c, {k, k + 1})
    ensures c[k].next == c[k + 2] && c[k + 2].prev == c[k] && e.next == null && e.prev == null
  {
    e.prev.next := e.next;
    e.next.prev := e.prev;
    e.next := null;
    e.prev := null;
  }

  /** s with e inserted before position k. */
  ghost function With<T>(s: seq<T>, k: nat, e: T): (t: seq<T>)
    requires k <= |s|
  {
    seq(|s| + 1, i requires 0 <= i <= |s| => if i < k then s[i] else if i == k then e else s[i - 1])
  }

  /** s without its element at position k. */
  ghost function Without<T>(s: seq<T>, k: nat): (t: seq<T>)
    requires k < |s|
  {
    seq(|s| - 1, i requires 0 <= i < |s| - 1 => if i < k then s[i] else s[i + 1])
  }

  ghost function Values(s: seq<Element>): (v: seq<ByteInterval>)
    ensures |v| == |s|
    ensures forall i :: 0 <= i < |s| ==> v[i] == s[i].value
  {
    seq(|s|, i requires 0 <= i < |s| => s[i].value)
  }

  lemma ChainWith(root: Element, nodes: seq<Element>, k: nat, e: Element)
    requires k <= |nodes|
    ensures ChainOf(root, With(nodes, k, e)) == With(ChainOf(root, nodes), k + 1, e)
  {
  }

  lemma ChainWithout(root: Element, nodes: seq<Element>, k: nat)
    requires k < |nodes|
    ensures ChainOf(root, Without(nodes, k)) == Without(ChainOf(root, nodes), k + 1)
  {
  }

  lemma DistinctWith(s: seq<Element>, k: nat, e: Element)
    requires Distinct(s) && e !in s && k <= |s|
    ensures Distinct(With(s, k, e))
  {
  }

  lemma DistinctWithout(s: seq<Element>, k: nat)
    requires Distinct(s) && k < |s|
    ensures Distinct(Without(s, k))
  {
  }

  lemma WithoutAmong(s: seq<Element>, k: nat)
    requires k < |s|
    ensures |Without(s, k)| == |s| - 1
    ensures forall i :: 0 <= i < |s| - 1 ==> Without(s, k)[i] == s[if i < k then i else i + 1]
  {
  }

  lemma OthersDiffer(s: seq<Element>, k: nat)
    requires Distinct(s) && k < |s|
    ensures forall i :: 0 <= i < |s| && i != k ==> s[i] != s[k]
  {
  }

  lemma PutBack(s: seq<Element>, k: nat)
    requires k < |s|
    ensures With(Without(s, k), k, s[k]) == s
  {
  }

  lemma ValuesWith(s: seq<Element>, k: nat, e: Element)
    requires k <= |s|
    ensures Values(With(s, k, e)) == Values(s)[..k] + [e.value] + Values(s)[k..]
  {
  }

  /** nodes is mine followed by copies of the first c of theirs. */
  ghost predicate CopiedBack(nodes: seq<Element>, mine: seq<Element>, theirs: seq<Element>, c: nat) {
    && c <= |theirs| && |nodes| == |mine| + c
    && (forall t {:trigger At(t)} :: At(t) && 0 <= t < |mine| ==> nodes[t] == mine[t])
    && (forall t {:trigger At(t)} :: At(t) && 0 <= t < c ==> nodes[|mine| + t].value == theirs[t].value)
  }

  lemma CopiedBackStep(nodes: seq<Element>, mine: seq<Element>, theirs: seq<Element>, c: nat, e: Element)
    requires c < |theirs| && CopiedBack(nodes, mine, theirs, c) && e.value == theirs[c].value
    ensures CopiedBack(With(nodes, |nodes|, e), mine, theirs, c + 1)
  {
  }

  lemma CopiedBackAll(nodes: seq<Element>, mine: seq<Element>, theirs: seq<Element>)
    requires CopiedBack(nodes, mine, theirs, |theirs|)
    ensures Values(nodes) == Values(mine) + Values(theirs)
  {
    forall t | 0 <= t < |nodes| ensures Values(nodes)[t] == (Values(mine) + Values(theirs))[t] {
      assert At(t) && At(t - |mine|);
    }
  }

  /** nodes is copies of the last c of theirs, followed by mine. */
  ghost predicate CopiedFront(nodes: seq<Element>, mine: seq<Element>, theirs: seq<Element>, c: nat) {
    && c <= |theirs| && |nodes| == c + |mine|
    && (forall t {:trigger At(t)} :: At(t) && 0 <= t < |mine| ==> nodes[c + t] == mine[t])
    && (forall t {:trigger At(t)} :: At(t) && 0 <= t < c ==> nodes[t].value == theirs[|theirs| - c + t].value)
  }

  lemma CopiedFrontStep(nodes: seq<Element>, mine: seq<Element>, theirs: seq<Element>, c: nat, e: Element)
    requires c < |theirs| && CopiedFront(nodes, mine, theirs, c) && e.value == theirs[|theirs| - c - 1].value
    ensures CopiedFront(With(nodes, 0, e), mine, theirs, c + 1)
  {
    var w := With(nodes, 0, e);
    forall t | At(t) && 0 <= t < c + 1 ensures w[t].value == theirs[|theirs| - c - 1 + t].value {
      assert At(t - 1);
    }
  }

  /** Where the next element to copy stands in a list that is prepended to itself. */
  lemma FrontSource(nodes: seq<Element>, mine: seq<Element>, theirs: seq<Element>, c: nat)
    requires c < |theirs| && mine == theirs && CopiedFront(nodes, mine, theirs, c)
    ensures |nodes| == c + |mine| && nodes[|theirs| - 1] == theirs[|theirs| - c - 1]
    ensures c + 1 < |theirs| ==> nodes[|theirs| - 2] == theirs[|theirs| - c - 2]
  {
    assert At(|theirs| - c - 1) && At(|theirs| - c - 2);
  }

  lemma CopiedFrontAll(nodes: seq<Element>, mine: seq<Element>, theirs: seq<Element>)
    requires CopiedFront(nodes, mine, theirs, |theirs|)
    ensures Values(nodes) == Values(theirs) + Values(mine)
  {
    forall t | 0 <= t < |nodes| ensures Values(nodes)[t] == (Values(theirs) + Values(mine))[t] {
      assert At(t) && At(t - |theirs|);
    }
  }

  class IntervalList {
    const root: Element
    var len: int
    ghost var nodes: seq<Element>
    ghost var Repr: set<object>

    ghost function Chain(): seq<Element>
      reads this
    {
      ChainOf(root, nodes)
    }

    /** Neighbours along the ring point at each other. */
    ghost predicate Linked()
      reads this, Repr
    {
      && root in Repr
      && (forall i :: 0 <= i < |nodes| ==> nodes[i] in Repr)
      && LinkedExcept(Chain(), {})
    }

    ghost predicate Valid()
      reads this, Repr
      ensures Valid() ==> this in Repr
    {
      && this in Repr
      && Linked()
      && len == |nodes|
      && root.list == null
      && Distinct(nodes)
      && (forall i :: 0 <= i < |nodes| ==> nodes[i].list == this)
    }

    /** A zero list that Init has not seen yet. */
    ghost predicate Zero()
      reads this, root
    {
      this in Repr && root in Repr && root.next == null && root.list == null && len == 0 && nodes == []
    }

    lemma LinkAt(i: nat)
      requires Valid() && i < |nodes|
      ensures nodes[i].next == (if i + 1 < |nodes| then nodes[i + 1] else root)
      ensures nodes[i].prev == (if i > 0 then nodes[i - 1] else root)
      ensures nodes[i] != root
    {
      assert At(i) && At(i + 1);
    }

    lemma Ends()
      requires Valid()
      ensures root.next == (if |nodes| > 0 then nodes[0] else root)
      ensures root.prev == (if |nodes| > 0 then nodes[|nodes| - 1] else root)
    {
      assert At(0) && At(|nodes|);
    }

    constructor ()
      ensures Valid() && nodes == [] && fresh(Repr)
    {
      root := new Element(ByteInterval(0, 0));
      len := 0;
      nodes := [];
      Repr := {this, root};
      new;
      root.next := root;
      root.prev := root;
    }

    method Init()
      requires this in Repr && root in Repr && root.list == null
      modifies Repr
      ensures Valid() && nodes == [] && Repr == old(Repr)
    {
      root.next := root;
      root.prev := root;
      len := 0;
      nodes := [];
    }

    method LazyInit()
      requires Valid() || Zero()
      modifies Repr
      ensures Valid() && nodes == old(nodes) && Repr == old(Repr)
      ensures old(Valid()) ==> unchanged(Repr)
    {
      if root.next == null {
        assert !Valid() by {
          if Valid() { Ends(); }
        }
        Init();
      }
    }

    method Front() returns (e: Element?)
      requires Valid()
      ensures e == (if nodes == [] then null else nodes[0])
    {
      Ends();
      e := if len == 0 then null else root.next;
    }

    method Back() returns (e: Element?)
      requires Valid()
      ensures e == (if nodes == [] then null else nodes[|nodes| - 1])
    {
      Ends();
      e := if len == 0 then null else root.prev;
    }

    /** Links the loose element e after the k-th position of the chain, 0 being the sentinel. */
    method Insert(e: Element, at: Element, ghost k: nat)
      requires Valid() && k <= |nodes| && at == Chain()[k]
      requires e !in nodes && e != root
      modifies Repr, e
      ensures Valid() && Repr == old(Repr) + {e}
      ensures nodes == With(old(nodes), k, e)
    {
      hide Distinct;
      ghost var c := Chain();
      ChainDistinct();
      ChainWith(root, nodes, k, e);
      assert At(k);
      LinkIn(e, at, c, k);
      e.list := this;
      len := len + 1;
      DistinctWith(nodes, k, e);
      Repr := Repr + {e};
      nodes := With(nodes, k, e);
      Spliced(c, k, e);
    }

    /** A chain spliced open after position k, with e linked in between, is linked. */
    lemma Spliced(c: seq<Element>, k: nat, e: Element)
      requires root in Repr && forall i :: 0 <= i < |nodes| ==> nodes[i] in Repr
      requires k + 1 < |c| && Chain() == With(c, k + 1, e) && LinkedExcept(c, {k})
      requires c[k].next == e && e.prev == c[k] && e.next == c[k + 1] && c[k + 1].prev == e
      ensures Linked()
    {
      var d := Chain();
      forall i | At(i) && 0 <= i < |d| - 1 ensures d[i].next == d[i + 1] && d[i + 1].prev == d[i] {
        assert At(i - 1);
      }
    }

    /** The sentinel and the elements are pairwise different, read from either end of the chain. */
    lemma ChainDistinct()
      requires Valid()
      ensures forall i, j :: 0 <= i < j <= |nodes| ==> Chain()[i] != Chain()[j]
      ensures forall i, j :: 1 <= i < j <= |nodes| + 1 ==> Chain()[i] != Chain()[j]
    {
    }

    method InsertValue(v: ByteInterval, at: Element, ghost k: nat) returns (e: Element)
      requires Valid() && k <= |nodes| && at == Chain()[k]
      modifies Repr
      ensures Valid() && fresh(Repr - old(Repr)) && fresh(e) && e.value == v
      ensures nodes == With(old(nodes), k, e)
    {
      e := new Element(v);
      Insert(e, at, k);
    }

    /** What the pointer surgery of remove relies on. */
    lemma ReadyToUnlink(k: nat)
      requires Valid() && k < |nodes|
      ensures var c, e := Chain(), nodes[k];
        && k + 2 < |c| && e == c[k + 1] && e.prev == c[k] && e.next == c[k + 2] && LinkedExcept(c, {})
        && (forall i :: 0 <= i < |c| - 1 && i != k ==> c[i] != c[k])
        && (forall i :: 0 <= i < |c| && i != k + 1 ==> c[i] != e)
        && (forall i :: 1 <= i < |c| && i != k + 2 ==> c[i] != c[k + 2])
        && c[k] in Repr && c[k + 2] in Repr
    {
      ChainDistinct();
      assert At(k) && At(k + 1);
    }

    /** Unlinks the k-th element and clears its pointers. */
    method Unlink(e: Element, ghost k: nat)
      requires Valid() && k < |nodes| && e == nodes[k]
      modifies Repr
      ensures Valid() && fresh(Repr - old(Repr)) && nodes == Without(old(nodes), k)
      ensures e.next == null && e.prev == null && e.list == null
    {
      hide Distinct, LinkedExcept, ChainOf, Without;
      OthersDiffer(nodes, k);
      ghost var c := Chain();
      ReadyToUnlink(k);
      ChainWithout(root, nodes, k);
      WithoutAmong(nodes, k);
      LinkOut(e, c, k);
      e.list := null;
      len := len - 1;
      DistinctWithout(nodes, k);
      nodes := Without(nodes, k);
      Closed(c, k);
    }

    /** A chain whose element at position k + 1 has been bypassed is linked without it. */
    lemma Closed(c: seq<Element>, k: nat)
      requires root in Repr && forall i :: 0 <= i < |nodes| ==> nodes[i] in Repr
      requires k + 2 < |c| && Chain() == Without(c, k + 1) && LinkedExcept(c, {k, k + 1})
      requires c[k].next == c[k + 2] && c[k + 2].prev == c[k]
      ensures Linked()
    {
      var d := Chain();
      forall i | At(i) && 0 <= i < |d| - 1 ensures d[i].next == d[i + 1] && d[i + 1].prev == d[i] {
        assert At(i + 1);
      }
    }

    /** Removes e if it is an element of this list. */
    method Remove(e: Element, ghost k: nat) returns (v: ByteInterval)
      requires Valid() && (e.list == this ==> k < |nodes| && e == nodes[k])
      modifies Repr
      ensures Valid() && fresh(Repr - old(Repr)) && v == e.value
      ensures if old(e.list) == this then nodes == Without(old(nodes), k) else nodes == old(nodes)
    {
      if e.list == this {
        Unlink(e, k);
      }
      v := e.value;
    }

    method PushFront(v: ByteInterval) returns (e: Element)
      requires Valid() || Zero()
      modifies Repr
      ensures Valid() && fresh(Repr - old(Repr)) && fresh(e) && e.value == v
      ensures nodes == With(old(nodes), 0, e)
    {
      LazyInit();
      e := InsertValue(v, root, 0);
    }

    method PushBack(v: ByteInterval) returns (e: Element)
      requires Valid() || Zero()
      modifies Repr
      ensures Valid() && fresh(Repr - old(Repr)) && fresh(e) && e.value == v
      ensures nodes == With(old(nodes), |old(nodes)|, e)
    {
      LazyInit();
      Ends();
      e := InsertValue(v, root.prev, |nodes|);
    }

    /** Inserts v before the k-th element, or does nothing if mark is not an element. */
    method InsertBefore(v: ByteInterval, mark: Element, ghost k: nat) returns (e: Element?)
      requires Valid() && (mark.list == this ==> k < |nodes| && mark == nodes[k])
      modifies Repr
      ensures Valid() && fresh(Repr - old(Repr))
      ensures old(mark.list) != this ==> e == null && nodes == old(nodes)
      ensures old(mark.list) == this ==> e != null && fresh(e) && e.value == v && nodes == With(old(nodes), k, e)
    {
      if mark.list != this {
        return null;
      }
      LinkAt(k);
      e := InsertValue(v, mark.prev, k);
    }

    method InsertAfter(v: ByteInterval, mark: Element, ghost k: nat) returns (e: Element?)
      requires Valid() && (mark.list == this ==> k < |nodes| && mark == nodes[k])
      modifies Repr
      ensures Valid() && fresh(Repr - old(Repr))
      ensures old(mark.list) != this ==> e == null && nodes == old(nodes)
      ensures old(mark.list) == this ==> e != null && fresh(e) && e.value == v && nodes == With(old(nodes), k + 1, e)
    {
      if mark.list != this {
        return null;
      }
      e := InsertValue(v, mark, k + 1);
    }

    method MoveToFront(e: Element, ghost k: nat)
      requires Valid() && (e.list == this ==> k < |nodes| && e == nodes[k])
      modifies Repr
      ensures Valid() && fresh(Repr - old(Repr))
      ensures nodes == if old(e.list) == this then With(Without(old(nodes), k), 0, e) else old(nodes)
    {
      Ends();
      if e.list != this || root.next == e {
        if e.list == this {
          assert k == 0;
          PutBack(nodes, k);
        }
        return;
      }
      LinkAt(k);
      Unlink(e, k);
      assert e !in nodes;
      Insert(e, root, 0);
    }

    method MoveToBack(e: Element, ghost k: nat)
      requires Valid() && (e.list == this ==> k < |nodes| && e == nodes[k])
      modifies Repr
      ensures Valid() && fresh(Repr - old(Repr))
      ensures nodes == if old(e.list) == this then With(Without(old(nodes), k), |old(nodes)| - 1, e) else old(nodes)
    {
      Ends();
      if e.list != this || root.prev == e {
        if e.list == this {
          assert k == |nodes| - 1;
          PutBack(nodes, k);
        }
        return;
      }
      LinkAt(k);
      Unlink(e, k);
      assert e !in nodes;
      Ends();
      Insert(e, root.prev, |nodes|);
    }

    /** Moves the i-th element before the j-th one. */
    method MoveBefore(e: Element, mark: Element, ghost i: nat, ghost j: nat)
      requires Valid() && (e.list == this ==> i < |nodes| && e == nodes[i])
      requires mark.list == this ==> j < |nodes| && mark == nodes[j]
      modifies Repr
      ensures Valid() && fresh(Repr - old(Repr))
      ensures nodes == if old(e.list) == this && old(mark.list) == this && e != mark
                       then With(Without(old(nodes), i), if j < i then j else j - 1, e) else old(nodes)
    {
      if e.list != this || e == mark || mark.list != this {
        return;
      }
      LinkAt(i);
      ghost var m := if j < i then j else j - 1;
      Unlink(e, i);
      assert nodes[m] == mark;
      LinkAt(m);
      Insert(e, mark.prev, m);
    }

    method MoveAfter(e: Element, mark: Element, ghost i: nat, ghost j: nat)
      requires Valid() && (e.list == this ==> i < |nodes| && e == nodes[i])
      requires mark.list == this ==> j < |nodes| && mark == nodes[j]
      modifies Repr
      ensures Valid() && fresh(Repr - old(Repr))
      ensures nodes == if old(e.list) == this && old(mark.list) == this && e != mark
                       then With(Without(old(nodes), i), if j < i then j + 1 else j, e) else old(nodes)
    {
      if e.list != this || e == mark || mark.list != this {
        return;
      }
      LinkAt(i);
      ghost var m := if j < i then j else j - 1;
      Unlink(e, i);
      assert nodes[m] == mark;
      Insert(e, mark, m + 1);
    }

    // ----- Copying one list onto another, or onto itself

    /** Inserts a value without disturbing another list. */
    method InsertBeside(v: ByteInterval, at: Element, ghost k: nat, ghost other: IntervalList)
      requires Valid() && other.Valid() && (other != this ==> Repr !! other.Repr)
      requires k <= |nodes| && at == Chain()[k]
      modifies Repr
      ensures Valid() && fresh(Repr - old(Repr)) && other.Valid() && (other != this ==> other.nodes == old(other.nodes))
      ensures |nodes| == |old(nodes)| + 1 && fresh(nodes[k]) && nodes[k].value == v
      ensures nodes == With(old(nodes), k, nodes[k])
    {
      var _ := InsertValue(v, at, k);
    }

    /** One turn of PushBackList: after c copies, copies the next element of theirs to the back. */
    method CopyBack(e: Element, other: IntervalList, ghost mine: seq<Element>, ghost theirs: seq<Element>, ghost c: nat)
      returns (f: Element?)
      requires Valid() && other.Valid() && (other != this ==> other.nodes == theirs && Repr !! other.Repr)
      requires other == this ==> mine == theirs
      requires c < |theirs| && e == theirs[c] && CopiedBack(nodes, mine, theirs, c)
      modifies Repr
      ensures Valid() && other.Valid() && fresh(Repr - old(Repr))
      ensures other != this ==> other.nodes == theirs && Repr !! other.Repr
      ensures CopiedBack(nodes, mine, theirs, c + 1)
      ensures c + 1 < |theirs| ==> f == theirs[c + 1]
    {
      Ends();
      ghost var before := nodes;
      InsertBeside(e.value, root.prev, |nodes|, other);
      CopiedBackStep(before, mine, theirs, c, nodes[|before|]);
      assert At(c) && At(c + 1);
      assert e == other.nodes[c];
      f := e.Next(c);
    }

    /** Appends a copy of the other list, which may be this list itself. */
    method PushBackList(other: IntervalList)
      requires other.Valid() && (Valid() || Zero()) && (other != this ==> Repr !! other.Repr)
      modifies Repr
      ensures Valid() && fresh(Repr - old(Repr)) && (other != this ==> other.Valid() && other.nodes == old(other.nodes))
      ensures Values(nodes) == old(Values(nodes)) + old(Values(other.nodes))
    {
      ghost var mine, theirs, c := nodes, other.nodes, 0;
      LazyInit();
      var e := other.Front();
      var i := other.len;
      while i > 0
        invariant 0 <= i && i + c == |theirs| && Valid() && other.Valid() && fresh(Repr - old(Repr))
        invariant other != this ==> other.nodes == theirs && Repr !! other.Repr
        invariant c >= 0 && CopiedBack(nodes, mine, theirs, c)
        invariant c < |theirs| ==> e == theirs[c]
      {
        e := CopyBack(e, other, mine, theirs, c);
        i, c := i - 1, c + 1;
      }
      CopiedBackAll(nodes, mine, theirs);
    }

    /** One turn of PushFrontList: after c copies, copies the next element of theirs from the back. */
    method CopyFront(e: Element, other: IntervalList, ghost mine: seq<Element>, ghost theirs: seq<Element>, ghost c: nat)
      returns (f: Element?)
      requires Valid() && other.Valid() && (other != this ==> other.nodes == theirs && Repr !! other.Repr)
      requires other == this ==> mine == theirs
      requires c < |theirs| && e == theirs[|theirs| - c - 1] && CopiedFront(nodes, mine, theirs, c)
      modifies Repr
      ensures Valid() && other.Valid() && fresh(Repr - old(Repr))
      ensures other != this ==> other.nodes == theirs && Repr !! other.Repr
      ensures CopiedFront(nodes, mine, theirs, c + 1)
      ensures c + 1 < |theirs| ==> f == theirs[|theirs| - c - 2]
    {
      hide CopiedFront, Linked, Distinct;
      ghost var before := nodes;
      ghost var at := if other == this then |theirs| else |theirs| - c - 1;
      if other == this {
        FrontSource(nodes, mine, theirs, c);
      }
      InsertBeside(e.value, root, 0, other);
      CopiedFrontStep(before, mine, theirs, c, nodes[0]);
      assert e == other.nodes[at];
      f := e.Prev(at);
    }

    /** Prepends a copy of the other list, which may be this list itself. */
    method PushFrontList(other: IntervalList)
      requires other.Valid() && (Valid() || Zero()) && (other != this ==> Repr !! other.Repr)
      modifies Repr
      ensures Valid() && fresh(Repr - old(Repr)) && (other != this ==> other.Valid() && other.nodes == old(other.nodes))
      ensures Values(nodes) == old(Values(other.nodes)) + old(Values(nodes))
    {
      hide Linked, Distinct;
      ghost var mine, theirs, c := nodes, other.nodes, 0;
      LazyInit();
      var e := other.Back();
      var i := other.len;
      while i > 0
        invariant 0 <= i && i + c == |theirs| && Valid() && other.Valid() && fresh(Repr - old(Repr))
        invariant other != this ==> other.nodes == theirs && Repr !! other.Repr
        invariant c >= 0 && CopiedFront(nodes, mine, theirs, c)
        invariant c < |theirs| ==> e == theirs[|theirs| - c - 1]
      {
        e := CopyFront(e, other, mine, theirs, c);
        i, c := i - 1, c + 1;
      }
      CopiedFrontAll(nodes, mine, theirs);
    }

    // ----- The interval operations

    /** Two neighbouring elements replaced by one, as ensureConsistency does it. */
    method Fuse(p: Element, n: Element, ghost a: nat) returns (q: Element)
      requires Valid() && 0 < a < |nodes| && p == nodes[a - 1] && n == nodes[a]
      modifies Repr
      ensures Valid() && fresh(Repr - old(Repr))
      ensures |nodes| == |old(nodes)| - 1 && q == nodes[a - 1] && q.value == p.value.Merge(n.value)
      ensures forall i :: 0 <= i < |nodes| && i != a - 1 ==> nodes[i] == old(nodes)[if i < a then i else i + 1]
    {
      var _ := Remove(p, a - 1);
      assert n == nodes[a - 1];
      q := InsertBefore(p.value.Merge(n.value), n, a - 1);
      var _ := Remove(n, a);
    }

    /** The merge pass, done on the pointers, computes MergePass. */
    method EnsureConsistency()
      requires Valid()
      modifies Repr
      ensures Valid() && fresh(Repr - old(Repr))
      ensures Values(nodes) == MergePass(old(Values(nodes)))
    {
      hide Linked, Distinct, MergedUpTo, MergePass;
      var p: Element? := null;
      var n := Front();
      ghost var a := 0;
      ghost var v := Values(nodes);
      MergedNone(v);
      while n != null
        invariant Valid() && 0 <= a <= |nodes| && fresh(Repr - old(Repr))
        invariant n == (if a < |nodes| then nodes[a] else null)
        invariant p == (if a > 0 then nodes[a - 1] else null)
        invariant MergedUpTo(v, Values(nodes), a)
        decreases |nodes| - a
      {
        if p != null && p.value.Overlap(n.value) {
          ghost var u := Values(nodes);
          p := Fuse(p, n, a);
          MergedFuse(v, u, a, Values(nodes));
          n := p.Next(a - 1);
        } else {
          MergedSkip(v, Values(nodes), a);
          p := n;
          n := n.Next(a);
          a := a + 1;
        }
      }
      MergedAll(v, Values(nodes));
    }

    /** Inserts b before the first interval it lies before, then runs the merge pass. */
    method Add(b: ByteInterval)
      requires Valid()
      modifies Repr
      ensures Valid() && fresh(Repr - old(Repr))
      ensures Values(nodes) == ByteIntervals.Add(old(Values(nodes)), b)
    {
      hide Linked, Distinct, MergePass;
      ghost var v := Values(nodes);
      ghost var k := 0;
      var n := Front();
      if n == null {
        var _ := PushFront(b);
      } else {
        while n != null && !b.IsBefore(n.value)
          invariant Valid() && nodes == old(nodes) && Repr == old(Repr)
          invariant 0 <= k <= |nodes| && n == (if k < |nodes| then nodes[k] else null)
          invariant forall i :: 0 <= i < k ==> !b.IsBefore(v[i])
          decreases |nodes| - k
        {
          n := n.Next(k);
          k := k + 1;
        }
        if n != null {
          var _ := InsertBefore(b, n, k);
        } else {
          var _ := PushBack(b);
        }
      }
      InsertAtIs(v, b, k);
      assert nodes == With(old(nodes), k, nodes[k]);
      ValuesWith(old(nodes), k, nodes[k]);
      EnsureConsistency();
    }

    /** Inserts the pieces, in order, before the a-th element. */
    method InsertPieces(n: Element, pieces: seq<ByteInterval>, ghost a: nat)
      requires Valid() && a < |nodes| && n == nodes[a]
      modifies Repr
      ensures Valid() && fresh(Repr - old(Repr))
      ensures Placed(nodes, old(nodes), a, pieces, |pieces|)
    {
      ghost var was := nodes;
      var i := 0;
      while i < |pieces|
        invariant 0 <= i <= |pieces| && Valid() && fresh(Repr - old(Repr))
        invariant Placed(nodes, was, a, pieces, i)
      {
        PlacedMark(nodes, was, a, pieces, i);
        ghost var before := nodes;
        var e := InsertBefore(pieces[i], n, a + i);
        PlacedStep(before, was, a, pieces, i, e);
        i := i + 1;
      }
    }

    /** Replaces the a-th element by what Exclude leaves of it, and steps past the result. */
    method ReplaceByPieces(n: Element, b: ByteInterval, ghost a: nat) returns (next: Element?)
      requires Valid() && a < |nodes| && n == nodes[a] && b.Overlap(n.value)
      modifies Repr
      ensures Valid() && fresh(Repr - old(Repr))
      ensures Values(nodes) == old(Values(nodes))[..a] + Piece(n.value, b) + old(Values(nodes))[a + 1..]
      ensures var k := a + |Piece(n.value, b)|; next == (if k < |nodes| then nodes[k] else null)
    {
      hide Placed, Linked, Distinct;
      ghost var was := nodes;
      var pieces := n.value.Exclude(b);
      InsertPieces(n, pieces, a);
      ghost var k := a + |pieces|;
      PlacedMark(nodes, was, a, pieces, |pieces|);
      PlacedDone(nodes, was, a, pieces);
      next := n.Next(k);
      var _ := Remove(n, k);
    }

    /** One turn of Fill's loop. */
    method FillNext(n: Element, b: ByteInterval, ghost v: seq<ByteInterval>, ghost j: nat, ghost a: nat)
      returns (next: Element?, ghost k: nat)
      requires Valid() && a < |nodes| && n == nodes[a] && FilledUpTo(v, Values(nodes), b, j, a)
      modifies Repr
      ensures Valid() && fresh(Repr - old(Repr))
      ensures j < |v| && FilledUpTo(v, Values(nodes), b, j + 1, k)
      ensures next == (if k < |nodes| then nodes[k] else null)
    {
      hide FilledUpTo, Piece, Linked, Distinct;
      k := a + |Piece(n.value, b)|;
      FilledStep(v, Values(nodes), b, j, a);
      if b.Overlap(n.value) {
        next := ReplaceByPieces(n, b, a);
      } else {
        next := n.Next(a);
      }
    }

    /** Fill, inserting and removing while it iterates, equals Pieces followed by one merge pass. */
    method Fill(b: ByteInterval)
      requires Valid()
      modifies Repr
      ensures Valid() && fresh(Repr - old(Repr))
      ensures Values(nodes) == ByteIntervals.Fill(old(Values(nodes)), b)
    {
      ghost var v := Values(nodes);
      ghost var j: nat, a: nat := 0, 0;
      var n := Front();
      while n != null
        invariant Valid() && fresh(Repr - old(Repr))
        invariant FilledUpTo(v, Values(nodes), b, j, a)
        invariant n == (if a < |nodes| then nodes[a] else null)
        decreases |v| - j
      {
        n, a := FillNext(n, b, v, j, a);
        j := j + 1;
      }
      FilledAll(v, Values(nodes), b, j, a);
      EnsureConsistency();
    }
  }

  // ----- The loops on values

  /** The pass over v has come to position a of the current values u. */
  ghost predicate MergedUpTo(v: seq<ByteInterval>, u: seq<ByteInterval>, a: nat) {
    && a <= |u|
    && (if a == 0 then u == v else MergePass(v) == u[..a - 1] + MergeFrom(u[a - 1], u[a..]))
  }

  lemma MergedNone(v: seq<ByteInterval>)
    ensures MergedUpTo(v, v, 0)
  {
  }

  lemma MergedSkip(v: seq<ByteInterval>, u: seq<ByteInterval>, a: nat)
    requires MergedUpTo(v, u, a) && a < |u| && (a == 0 || !u[a - 1].Overlap(u[a]))
    ensures MergedUpTo(v, u, a + 1)
  {
    if a == 0 {
      assert u[..0] + MergeFrom(u[0], u[1..]) == MergeFrom(u[0], u[1..]);
    } else {
      assert u[a..][1..] == u[a + 1..];
      assert u[..a] == u[..a - 1] + [u[a - 1]];
    }
  }

  lemma MergedFuse(v: seq<ByteInterval>, u: seq<ByteInterval>, a: nat, w: seq<ByteInterval>)
    requires MergedUpTo(v, u, a) && 0 < a < |u| && u[a - 1].Overlap(u[a])
    requires |w| == |u| - 1 && w[a - 1] == u[a - 1].Merge(u[a])
    requires forall i :: 0 <= i < |w| && i != a - 1 ==> w[i] == u[if i < a then i else i + 1]
    ensures MergedUpTo(v, w, a)
  {
    assert u[a..][1..] == u[a + 1..];
    assert w[..a - 1] == u[..a - 1] && w[a..] == u[a + 1..];
  }

  lemma MergedAll(v: seq<ByteInterval>, u: seq<ByteInterval>)
    requires MergedUpTo(v, u, |u|)
    ensures u == MergePass(v)
  {
    if |u| > 0 {
      assert u == u[..|u| - 1] + [u[|u| - 1]];
    }
  }

  lemma {:induction false} InsertAtIs(l: seq<ByteInterval>, b: ByteInterval, k: nat)
    requires k <= |l| && (forall i :: 0 <= i < k ==> !b.IsBefore(l[i])) && (k < |l| ==> b.IsBefore(l[k]))
    ensures InsertAt(l, b) == k
  {
  }

  /** The first i pieces stand before the a-th of the original elements. */
  ghost predicate Placed(nodes: seq<Element>, was: seq<Element>, a: nat, pieces: seq<ByteInterval>, i: nat) {
    && a < |was| && i <= |pieces| && |nodes| == |was| + i
    && nodes[..a] == was[..a]
    && Values(nodes[a..a + i]) == pieces[..i]
    && nodes[a + i..] == was[a..]
  }

  lemma PlacedMark(nodes: seq<Element>, was: seq<Element>, a: nat, pieces: seq<ByteInterval>, i: nat)
    requires Placed(nodes, was, a, pieces, i)
    ensures nodes[a + i] == was[a]
  {
    assert nodes[a + i] == nodes[a + i..][0];
  }

  lemma PlacedStep(nodes: seq<Element>, was: seq<Element>, a: nat, pieces: seq<ByteInterval>, i: nat, e: Element)
    requires Placed(nodes, was, a, pieces, i) && i < |pieces| && e.value == pieces[i]
    ensures Placed(With(nodes, a + i, e), was, a, pieces, i + 1)
  {
    var w := With(nodes, a + i, e);
    assert w[..a] == nodes[..a];
    assert w[a..a + i + 1] == nodes[a..a + i] + [e];
    assert w[a + i + 1..] == nodes[a + i..];
  }

  lemma PlacedDone(nodes: seq<Element>, was: seq<Element>, a: nat, pieces: seq<ByteInterval>)
    requires Placed(nodes, was, a, pieces, |pieces|)
    ensures Values(Without(nodes, a + |pieces|)) == Values(was)[..a] + pieces + Values(was)[a + 1..]
  {
    var k := a + |pieces|;
    var w := Without(nodes, k);
    assert w == nodes[..a] + nodes[a..k] + nodes[k..][1..];
    assert Values(nodes[..a]) == Values(was)[..a];
    assert Values(nodes[k..][1..]) == Values(was)[a + 1..];
  }

  /** The fill of v has come to position j, which is position a of the current values: what is
      left of v[..j], then the rest untouched. */
  ghost predicate FilledUpTo(v: seq<ByteInterval>, u: seq<ByteInterval>, o: ByteInterval, j: nat, a: nat) {
    j <= |v| && a == |Pieces(v[..j], o)| && u == Pieces(v[..j], o) + v[j..]
  }

  lemma FilledStep(v: seq<ByteInterval>, u: seq<ByteInterval>, o: ByteInterval, j: nat, a: nat)
    requires FilledUpTo(v, u, o, j, a) && a < |u|
    ensures j < |v| && FilledUpTo(v, u[..a] + Piece(u[a], o) + u[a + 1..], o, j + 1, a + |Piece(u[a], o)|)
    ensures !o.Overlap(u[a]) ==> |Piece(u[a], o)| == 1 && FilledUpTo(v, u, o, j + 1, a + 1)
  {
    PiecesSnoc(v, o, j);
    Middle(Pieces(v[..j], o), v, j, u);
    if !o.Overlap(u[a]) {
      assert u == u[..a] + [u[a]] + u[a + 1..];
    }
  }

  lemma Middle(left: seq<ByteInterval>, v: seq<ByteInterval>, j: nat, u: seq<ByteInterval>)
    requires j < |v| && u == left + v[j..]
    ensures u[|left|] == v[j] && u[..|left|] == left && u[|left| + 1..] == v[j + 1..]
  {
  }

  lemma FilledAll(v: seq<ByteInterval>, u: seq<ByteInterval>, o: ByteInterval, j: nat, a: nat)
    requires FilledUpTo(v, u, o, j, a) && a >= |u|
    ensures u == Pieces(v, o)
  {
    assert v[..j] == v;
  }

  lemma {:induction false} PiecesSnoc(l: seq<ByteInterval>, o: ByteInterval, j: nat)
    requires j < |l|
    ensures Pieces(l[..j + 1], o) == Pieces(l[..j], o) + Piece(l[j], o)
    decreases j
  {
    if j == 0 {
      assert l[..1] == [l[0]];
    } else {
      PiecesSnoc(l[1..], o, j - 1);
      assert l[..j + 1][1..] == l[1..][..j] && l[..j][1..] == l[1..][..j - 1];
    }
  }
}
