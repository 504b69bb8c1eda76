/** parser_tree.c: the case-insensitive header index, an unbalanced binary search tree.

    The proof goes in two steps: the linked nodes are a pure `Shape`, and the shape is a map from
    case-folded keys to values. The ghost field `live` is the ledger of heap blocks: a block enters
    it when it is allocated, and `Free` demands that the block is still there.
 */
module ParserTree {
  import opened CStrings

  /** A block from malloc or realloc, of `size` bytes, which holds a terminated text. */
  class CBuffer {
    const size: nat
    var text: CString

    constructor (size: nat, text: CString)
      requires |text| < size
      ensures this.size == size && this.text == text
    {
      this.size, this.text := size, text;
    }

    /** The text is changed in place. */
    method Rewrite(text: CString)
      requires |text| < size
      modifies this
      ensures this.text == text
    {
      this.text := text;
    }
  }

  /** The text fits its block. */
  ghost predicate Fits(b: CBuffer?)
    reads b
  {
    b != null ==> |b.text| < b.size
  }

  class TreeNode {
    const key: CBuffer
    var value: CBuffer?
    var left: TreeNode?
    var right: TreeNode?

    constructor (key: CBuffer, value: CBuffer?)
      ensures this.key == key && this.value == value && left == null && right == null
    {
      this.key, this.value := key, value;
      left, right := null, null;
    }
  }

  // ------------------------------------------------------------------------------------------
  // Shapes

  datatype Cell = Cell(buffer: CBuffer, text: CString)

  datatype Shape =
    | Leaf
    | Branch(node: TreeNode, key: Cell, value: Option<Cell>, left: Shape, right: Shape)

  type Index = map<CString, Option<CString>>

  ghost function CellBlock(c: Option<Cell>): set<object> {
    if c.Some? then {c.value.buffer} else {}
  }

  ghost function Blocks(s: Shape): set<object> {
    if s.Leaf? then {}
    else {s.node, s.key.buffer} + CellBlock(s.value) + Blocks(s.left) + Blocks(s.right)
  }

  /** No block is used twice: in particular the links form no cycle. */
  ghost predicate Separate(s: Shape) {
    s.Branch? ==>
      && (s.value.Some? ==> s.value.value.buffer != s.key.buffer)
      && {s.node, s.key.buffer} + CellBlock(s.value) !! Blocks(s.left)
      && {s.node, s.key.buffer} + CellBlock(s.value) !! Blocks(s.right)
      && Blocks(s.left) !! Blocks(s.right)
      && Separate(s.left) && Separate(s.right)
  }

  ghost predicate CellHolds(b: CBuffer?, c: Option<Cell>)
    reads CellBlock(c)
  {
    if c.None? then b == null else b == c.value.buffer && c.value.buffer.text == c.value.text
  }

  /** The nodes reachable from n are laid out as s. */
  ghost predicate Linked(n: TreeNode?, s: Shape)
    reads Blocks(s)
  {
    match s
    case Leaf => n == null
    case Branch(x, key, value, left, right) =>
      && n == x && x.key == key.buffer && key.buffer.text == key.text
      && CellHolds(x.value, value)
      && Linked(x.left, left) && Linked(x.right, right)
  }

  /** A node without children that holds the key and the value. */
  ghost predicate Single(x: TreeNode, key: Cell, value: Option<Cell>)
    reads x, key.buffer, CellBlock(value)
  {
    x.key == key.buffer && key.buffer.text == key.text && CellHolds(x.value, value) && x.left == null && x.right == null
  }

  function Text(c: Option<Cell>): Option<CString> {
    if c.Some? then Some(c.value.text) else None
  }

  function Contents(s: Shape): Index {
    if s.Leaf? then map[]
    else (Contents(s.left) + Contents(s.right))[Fold(s.key.text) := Text(s.value)]
  }

  ghost predicate Ordered(s: Shape) {
    s.Branch? ==>
      && (forall k :: k in Contents(s.left) ==> Compare(k, s.key.text) < 0)
      && (forall k :: k in Contents(s.right) ==> Compare(k, s.key.text) > 0)
      && Ordered(s.left) && Ordered(s.right)
  }

  /** What the descent of rh_ptree_get_value finds. */
  function Lookup(s: Shape, k: CString): Option<CString> {
    if s.Leaf? then None
    else if Compare(k, s.key.text) == 0 then Text(s.value)
    else if Compare(k, s.key.text) < 0 then Lookup(s.left, k)
    else Lookup(s.right, k)
  }

  function MapLookup(m: Index, k: CString): Option<CString> {
    if Fold(k) in m then m[Fold(k)] else None
  }

  function Put(s: Shape, x: TreeNode, key: Cell, value: Option<Cell>): Shape {
    if s.Leaf? then Branch(x, key, value, Leaf, Leaf)
    else if Compare(key.text, s.key.text) == 0 then s.(value := value)
    else if Compare(key.text, s.key.text) < 0 then s.(left := Put(s.left, x, key, value))
    else s.(right := Put(s.right, x, key, value))
  }

  // ------------------------------------------------------------------------------------------
  // Shapes are maps

  lemma CompareFolded(a: CString, b: CString)
    ensures Compare(Fold(a), b) == Compare(a, b)
    ensures Compare(Fold(a), b) == 0 <==> Fold(a) == Fold(b)
  {
    assert Fold(Fold(a)) == Fold(a);
    CompareFolds(a, b);
    CompareFolds(Fold(a), b);
    CompareZero(a, b);
    SameFold(a, b);
  }

  /** In an ordered tree a key smaller than the root's is nowhere but on the left, and so on. */
  lemma OrderedSides(s: Shape, k: CString)
    requires s.Branch? && Ordered(s)
    ensures Compare(k, s.key.text) <= 0 ==> Fold(k) !in Contents(s.right)
    ensures Compare(k, s.key.text) >= 0 ==> Fold(k) !in Contents(s.left)
    ensures Compare(k, s.key.text) == 0 <==> Fold(k) == Fold(s.key.text)
  {
    CompareFolded(k, s.key.text);
  }

  /** The search tree refines the map: what the descent finds is what the map holds. */
  lemma {:induction false} LookupIsMapLookup(s: Shape, k: CString)
    requires Ordered(s)
    ensures Lookup(s, k) == MapLookup(Contents(s), k)
  {
    if s.Branch? {
      OrderedSides(s, k);
      LookupIsMapLookup(s.left, k);
      LookupIsMapLookup(s.right, k);
    }
  }

  /** A value is held under every spelling of its name, and under no other name. */
  lemma LookupAfterWrite(m: Index, name: CString, value: Option<CString>, k: CString)
    ensures MapLookup(m[Fold(name) := value], k) == if SameAsideCase(k, name) then value else MapLookup(m, k)
    ensures MapLookup(map[], k) == None
  {
    SameFold(k, name);
  }

  lemma LookupsAfterWrite(m: Index, name: CString, value: Option<CString>)
    ensures forall k: CString ::
              MapLookup(m[Fold(name) := value], k) == if SameAsideCase(k, name) then value else MapLookup(m, k)
  {
    hide Fold, SameAsideCase, MapLookup;
    forall k: CString
      ensures MapLookup(m[Fold(name) := value], k) == if SameAsideCase(k, name) then value else MapLookup(m, k)
    {
      LookupAfterWrite(m, name, value, k);
    }
  }

  lemma {:induction false} KeysAreFolded(s: Shape, k: CString)
    requires k in Contents(s)
    ensures Fold(k) == k
  {
    hide ToLower;
    if k == Fold(s.key.text) {
      FoldTwice(s.key.text);
    } else if k in Contents(s.left) {
      KeysAreFolded(s.left, k);
    } else {
      KeysAreFolded(s.right, k);
    }
  }

  lemma FoldTwice(a: CString)
    ensures Fold(Fold(a)) == Fold(a)
  {
  }

  /** The value found is that of the name of the map that is the same case aside. */
  lemma LookupMeaning(s: Shape, k: CString)
    ensures forall name :: name in Contents(s) && SameAsideCase(name, k) ==> MapLookup(Contents(s), k) == Contents(s)[name]
    ensures (forall name :: name in Contents(s) ==> !SameAsideCase(name, k)) ==> MapLookup(Contents(s), k) == None
  {
    hide Contents, Fold, SameAsideCase;
    forall name | name in Contents(s)
      ensures SameAsideCase(name, k) <==> name == Fold(k)
    {
      KeysAreFolded(s, name);
      SameFold(name, k);
    }
  }

  /** Insertion keeps the order and is a map update: the last write wins. */
  lemma {:induction false} PutIsMapUpdate(s: Shape, x: TreeNode, key: Cell, value: Option<Cell>)
    requires Ordered(s)
    ensures Contents(Put(s, x, key, value)) == Contents(s)[Fold(key.text) := Text(value)]
    ensures Ordered(Put(s, x, key, value))
  {
    if s.Branch? {
      OrderedSides(s, key.text);
      CompareFolded(key.text, s.key.text);
      var cmp := Compare(key.text, s.key.text);
      if cmp < 0 {
        PutIsMapUpdate(s.left, x, key, value);
        UpdateLeft(Contents(s.left), Contents(s.right), Fold(s.key.text), Text(s.value), Fold(key.text), Text(value));
      } else if cmp > 0 {
        PutIsMapUpdate(s.right, x, key, value);
        UpdateRight(Contents(s.left), Contents(s.right), Fold(s.key.text), Text(s.value), Fold(key.text), Text(value));
      } else {
        UpdateRoot(Contents(s.left) + Contents(s.right), Fold(s.key.text), Text(s.value), Text(value));
      }
    }
  }

  lemma UpdateLeft<K, V>(l: map<K, V>, r: map<K, V>, k: K, v: V, k': K, v': V)
    requires k != k' && k' !in r
    ensures (l[k' := v'] + r)[k := v] == (l + r)[k := v][k' := v']
  {
  }

  lemma UpdateRight<K, V>(l: map<K, V>, r: map<K, V>, k: K, v: V, k': K, v': V)
    requires k != k'
    ensures (l + r[k' := v'])[k := v] == (l + r)[k := v][k' := v']
  {
  }

  lemma UpdateRoot<K, V>(m: map<K, V>, k: K, v: V, v': V)
    ensures m[k := v'] == m[k := v][k := v']
  {
  }

  ghost function CountNodes(s: Shape): nat {
    if s.Leaf? then 0 else 1 + CountNodes(s.left) + CountNodes(s.right)
  }

  /** One node for each case-folded key. */
  lemma {:induction false} OneNodePerKey(s: Shape)
    requires Ordered(s)
    ensures CountNodes(s) == |Contents(s)|
  {
    if s.Branch? {
      OneNodePerKey(s.left);
      OneNodePerKey(s.right);
      OrderedSides(s, s.key.text);
      CompareOpposite(s.key.text, s.key.text);
      var l, r := Contents(s.left), Contents(s.right);
      assert forall k :: k in l ==> Compare(k, s.key.text) < 0;
      assert l.Keys !! r.Keys && (l + r).Keys == l.Keys + r.Keys;
      assert Contents(s).Keys == (l.Keys + r.Keys) + {Fold(s.key.text)};
      assert |Contents(s)| == |Contents(s).Keys| && |l| == |l.Keys| && |r| == |r.Keys|;
    }
  }

  // ------------------------------------------------------------------------------------------
  // The heap follows the shape

  /** The node at which the insertion descent stops: the one that holds the key, or the one that
      gets a new child. */
  ghost function Stop(s: Shape, k: CString): (x: TreeNode)
    requires s.Branch?
    ensures x in Blocks(s)
  {
    var cmp := Compare(k, s.key.text);
    if cmp < 0 && s.left.Branch? then Stop(s.left, k)
    else if cmp > 0 && s.right.Branch? then Stop(s.right, k)
    else s.node
  }

  /** What the node where an insertion stops holds before it is written. */
  datatype Fields = Fields(left: TreeNode?, right: TreeNode?, value: CBuffer?)

  /** `Linked`, except that the fields of the node `at` are taken from f instead of the heap. */
  ghost predicate LinkedExcept(n: TreeNode?, s: Shape, at: TreeNode, f: Fields)
    requires Separate(s)
    reads Blocks(s) - {at}
  {
    match s
    case Leaf => n == null
    case Branch(x, key, value, left, right) =>
      && n == x && x.key == key.buffer && key.buffer.text == key.text
      && (if x == at then
            CellHolds(f.value, value) && Linked(f.left, left) && Linked(f.right, right)
          else
            CellHolds(x.value, value) && LinkedExcept(x.left, left, at, f) && LinkedExcept(x.right, right, at, f))
  }

  lemma {:induction false} Detach(n: TreeNode?, s: Shape, at: TreeNode)
    requires Separate(s) && Linked(n, s)
    ensures LinkedExcept(n, s, at, Fields(at.left, at.right, at.value))
    decreases s
  {
    if s.Branch? && s.node != at {
      Detach(n.left, s.left, at);
      Detach(n.right, s.right, at);
    }
  }

  lemma {:induction false} Elsewhere(n: TreeNode?, s: Shape, at: TreeNode, f: Fields)
    requires Separate(s) && LinkedExcept(n, s, at, f) && at !in Blocks(s)
    ensures Linked(n, s)
    decreases s
  {
    if s.Branch? {
      Elsewhere(n.left, s.left, at, f);
      Elsewhere(n.right, s.right, at, f);
    }
  }

  /** The outcome of comparing k with the key at the node where the descent stops. */
  ghost function StopCompare(s: Shape, k: CString): int
    requires s.Branch?
  {
    var cmp := Compare(k, s.key.text);
    if cmp < 0 && s.left.Branch? then StopCompare(s.left, k)
    else if cmp > 0 && s.right.Branch? then StopCompare(s.right, k)
    else cmp
  }

  /** The fields of the node `at` after the push: one of the three has been written. */
  ghost predicate Written(at: TreeNode, f: Fields, cmp: int, x: TreeNode, value: CBuffer?)
    reads at
  {
    && at.value == (if cmp == 0 then value else f.value)
    && at.left == (if cmp < 0 then x else f.left)
    && at.right == (if cmp > 0 then x else f.right)
  }

  /** Writing one field of the node where the descent stops turns the shape s into Put(s). */
  lemma {:induction false} PutLinked(n: TreeNode?, s: Shape, x: TreeNode, key: Cell, value: Option<Cell>, f: Fields)
    requires s.Branch? && Separate(s)
    requires LinkedExcept(n, s, Stop(s, key.text), f)
    requires Single(x, key, value)
    requires Written(Stop(s, key.text), f, StopCompare(s, key.text), x, x.value)
    ensures Linked(n, Put(s, x, key, value))
    decreases s
  {
    hide Compare;
    var at := Stop(s, key.text);
    var cmp := Compare(key.text, s.key.text);
    if cmp < 0 && s.left.Branch? {
      PutLinked(n.left, s.left, x, key, value, f);
      Elsewhere(n.right, s.right, at, f);
    } else if cmp > 0 && s.right.Branch? {
      PutLinked(n.right, s.right, x, key, value, f);
      Elsewhere(n.left, s.left, at, f);
    }
  }

  // ------------------------------------------------------------------------------------------
  // The blocks follow the shape

  /** Insertion keeps blocks apart. A new key adds its node, key and value blocks. */
  lemma {:induction false} PutBlocksMiss(s: Shape, x: TreeNode, key: Cell, value: Option<Cell>)
    requires Separate(s) && {x, key.buffer} + CellBlock(value) !! Blocks(s)
    requires value.Some? ==> value.value.buffer != key.buffer
    requires !Hit(s, key.text)
    ensures Separate(Put(s, x, key, value))
    ensures Blocks(Put(s, x, key, value)) == Blocks(s) + {x, key.buffer} + CellBlock(value)
    decreases s
  {
    if s.Branch? {
      var cmp := Compare(key.text, s.key.text);
      if cmp < 0 {
        PutBlocksMiss(s.left, x, key, value);
      } else if cmp > 0 {
        PutBlocksMiss(s.right, x, key, value);
      }
    }
  }

  lemma {:induction false} HitBlocks(s: Shape, k: CString)
    requires Hit(s, k)
    ensures CellBlock(HitValue(s, k)) <= Blocks(s)
    decreases s
  {
    var cmp := Compare(k, s.key.text);
    if cmp < 0 {
      HitBlocks(s.left, k);
    } else if cmp > 0 {
      HitBlocks(s.right, k);
    }
  }

  /** A key that is already there takes the new value block and gives up the old one. */
  lemma {:induction false} PutBlocksHit(s: Shape, x: TreeNode, key: Cell, value: Option<Cell>)
    requires Separate(s) && {x, key.buffer} + CellBlock(value) !! Blocks(s)
    requires Hit(s, key.text)
    ensures Blocks(Put(s, x, key, value)) ==
            Blocks(s) - CellBlock(HitValue(s, key.text)) + CellBlock(value)
    decreases s
  {
    hide Compare, CellBlock;
    var cmp := Compare(key.text, s.key.text);
    var own := {s.node, s.key.buffer} + CellBlock(s.value);
    var freed := CellBlock(HitValue(s, key.text));
    HitBlocks(s, key.text);
    if cmp < 0 {
      PutBlocksHit(s.left, x, key, value);
      HitBlocks(s.left, key.text);
      Exchange(Blocks(s.left), own + Blocks(s.right), freed, CellBlock(value));
    } else if cmp > 0 {
      PutBlocksHit(s.right, x, key, value);
      HitBlocks(s.right, key.text);
      Exchange(Blocks(s.right), own + Blocks(s.left), freed, CellBlock(value));
    } else {
      PutBlocksHere(s, x, key, value);
    }
  }

  lemma PutBlocksHere(s: Shape, x: TreeNode, key: Cell, value: Option<Cell>)
    requires Separate(s) && s.Branch? && Compare(key.text, s.key.text) == 0
    ensures Blocks(Put(s, x, key, value)) == Blocks(s) - CellBlock(HitValue(s, key.text)) + CellBlock(value)
  {
    hide Compare;
    var outside := {s.node, s.key.buffer} + Blocks(s.left) + Blocks(s.right);
    Exchange(CellBlock(s.value), outside, CellBlock(s.value), CellBlock(value));
  }

  lemma {:induction false} PutSeparateHit(s: Shape, x: TreeNode, key: Cell, value: Option<Cell>)
    requires Separate(s) && {x, key.buffer} + CellBlock(value) !! Blocks(s)
    requires Hit(s, key.text)
    ensures Separate(Put(s, x, key, value))
    decreases s
  {
    var cmp := Compare(key.text, s.key.text);
    if cmp < 0 {
      PutSeparateHit(s.left, x, key, value);
      PutBlocksHit(s.left, x, key, value);
    } else if cmp > 0 {
      PutSeparateHit(s.right, x, key, value);
      PutBlocksHit(s.right, x, key, value);
    }
  }

  lemma LedgerAfterReplace(tree: object, blocks: set<object>, node: object, key: object,
                           freed: set<object>, taken: set<object>)
    requires freed <= blocks && {node, key} + taken !! blocks && tree !in blocks
    requires node !in taken && key !in taken && tree !in taken && tree != node && tree != key
    ensures ({tree} + blocks + {node, key} + taken) - freed - {key} - {node} == {tree} + (blocks - freed + taken)
  {
  }

  lemma Exchange<T>(inside: set<T>, outside: set<T>, freed: set<T>, taken: set<T>)
    requires inside !! outside && freed <= inside
    ensures outside + (inside - freed + taken) == (outside + inside) - freed + taken
  {
  }

  ghost predicate Hit(s: Shape, k: CString) {
    s.Branch? && StopCompare(s, k) == 0
  }

  /** The node where a successful descent stops holds the value the shape has for the key. */
  lemma {:induction false} StopHolds(n: TreeNode?, s: Shape, k: CString, at: TreeNode)
    requires Linked(n, s) && Hit(s, k) && at == Stop(s, k)
    ensures CellHolds(at.value, HitValue(s, k))
    decreases s
  {
    var cmp := Compare(k, s.key.text);
    if cmp < 0 && s.left.Branch? {
      StopHolds(n.left, s.left, k, at);
    } else if cmp > 0 && s.right.Branch? {
      StopHolds(n.right, s.right, k, at);
    }
  }

  ghost function HitValue(s: Shape, k: CString): Option<Cell>
    requires Hit(s, k)
  {
    var cmp := Compare(k, s.key.text);
    if cmp < 0 then HitValue(s.left, k) else if cmp > 0 then HitValue(s.right, k) else s.value
  }

  // ------------------------------------------------------------------------------------------
  // The tree

  ghost function Holding(b: CBuffer?): Option<CString>
    reads b
  {
    if b == null then None else Some(b.text)
  }

  ghost function Opt(b: object?): set<object> {
    if b == null then {} else {b}
  }

  function StrNCpyText(s: seq<char>, destLength: nat): CString
    requires destLength >= 1
  {
    Take(CStr(s), destLength - 1)
  }

  lemma PartFits(s: seq<char>, destLength: nat)
    requires destLength >= 1
    ensures |StrNCpyText(s, destLength)| < destLength
  {
  }

  lemma PendingKey(tree: Tree)
    requires tree.Key().Some?
    ensures tree.currentKey != null
  {
  }

  class Tree {
    var root: TreeNode?
    var currentKey: CBuffer?
    var currentValue: CBuffer?
    ghost var shape: Shape
    ghost var live: set<object>

    ghost predicate Valid()
      reads this, live
    {
      && live == {this} + Blocks(shape) + Opt(currentKey) + Opt(currentValue)
      && this !in Blocks(shape)
      && Separate(shape) && Ordered(shape)
      && Opt(currentKey) !! Blocks(shape) && Opt(currentValue) !! Blocks(shape)
      && Opt(currentKey) !! Opt(currentValue)
      && Linked(root, shape) && Fits(currentKey) && Fits(currentValue)
    }

    ghost function Map(): Index
      reads this
    {
      Contents(shape)
    }

    ghost function Key(): Option<CString>
      reads this, currentKey
    {
      Holding(currentKey)
    }

    ghost function Value(): Option<CString>
      reads this, currentValue
    {
      Holding(currentValue)
    }

    /** rh_ptree_init */
    constructor ()
      ensures Valid() && fresh(live) && live == {this}
      ensures Map() == map[] && Key() == None && Value() == None
    {
      root, currentKey, currentValue := null, null, null;
      shape, live := Leaf, {this};
    }

    /** free: the block must be live, and is not afterwards. Freeing NULL does nothing. */
    ghost method Free(block: object?)
      requires block == null || block in live
      modifies this`live
      ensures live == old(live) - Opt(block)
    {
      live := live - Opt(block);
    }

    method UpdateKey(partialKey: seq<char>, partialKeyLen: nat)
      requires Valid() && partialKeyLen >= 1
      ensures currentKey != null && currentKey.size == |old(Key()).GetOr("")| + partialKeyLen + 1
      modifies live
      ensures Valid() && fresh(live - old(live))
      ensures Map() == old(Map()) && Value() == old(Value())
      ensures Key() == Some(old(Key()).GetOr("") + StrNCpyText(partialKey, partialKeyLen))
    {
      hide Separate, Ordered, Contents, Blocks, Linked, StrNCpyText;
      PartFits(partialKey, partialKeyLen);
      if currentKey == null {
        currentKey := new CBuffer(partialKeyLen + 1, StrNCpyText(partialKey, partialKeyLen));
      } else {
        var temp := new CBuffer(|currentKey.text| + partialKeyLen + 1,
                                currentKey.text + StrNCpyText(partialKey, partialKeyLen));
        Free(currentKey);
        currentKey := temp;
      }
      live := live + {currentKey};
      assert forall s: CString :: "" + s == s;
    }

    method UpdateValue(partialValue: seq<char>, partialValueLen: nat)
      requires Valid() && partialValueLen >= 1
      ensures currentValue != null && currentValue.size == |old(Value()).GetOr("")| + partialValueLen + 1
      modifies live
      ensures Valid() && fresh(live - old(live))
      ensures Map() == old(Map()) && Key() == old(Key())
      ensures Value() == Some(old(Value()).GetOr("") + StrNCpyText(partialValue, partialValueLen))
    {
      hide Separate, Ordered, Contents, Blocks, Linked, StrNCpyText;
      PartFits(partialValue, partialValueLen);
      if currentValue == null {
        currentValue := new CBuffer(partialValueLen + 1, StrNCpyText(partialValue, partialValueLen));
      } else {
        var temp := new CBuffer(|currentValue.text| + partialValueLen + 1,
                                currentValue.text + StrNCpyText(partialValue, partialValueLen));
        Free(currentValue);
        currentValue := temp;
      }
      live := live + {currentValue};
      assert forall s: CString :: "" + s == s;
    }

    method Abort()
      requires Valid()
      modifies live
      ensures Valid() && live <= old(live)
      ensures Map() == old(Map()) && Key() == None && Value() == None
    {
      hide Separate, Ordered, Contents, Blocks, Linked;
      Free(currentKey);
      currentKey := null;
      Free(currentValue);
      currentValue := null;
    }

    /** The pair becomes the last one written under its key. `change` is applied in place to both
        texts first, as data_modifications is. */
    method Push(change: Option<CString -> CString>) returns (ok: bool)
      requires Valid() && currentKey != null
      requires change.Some? ==> forall s: CString :: |change.value(s)| <= |s|
      modifies live
      ensures Valid() && fresh(live - old(live))
      ensures ok && Key() == None && Value() == None
      ensures Map() == old(Map())[Fold(Changed(change, old(Key())).value) := Changed(change, old(Value()))]
      ensures forall k: CString ::
                MapLookup(Map(), k) ==
                if SameAsideCase(k, Changed(change, old(Key())).value) then Changed(change, old(Value()))
                else MapLookup(old(Map()), k)
    {
      hide Put, Separate, Ordered, Contents, Blocks, Linked;
      var node := new TreeNode(currentKey, currentValue);
      live := live + {node};
      if change.Some? {
        node.key.Rewrite(change.value(node.key.text));
        if node.value != null {
          node.value.Rewrite(change.value(node.value.text));
        }
      }
      currentKey, currentValue := null, null;
      ghost var key := Cell(node.key, node.key.text);
      ghost var value := if node.value == null then None else Some(Cell(node.value, node.value.text));
      PutIsMapUpdate(shape, node, key, value);
      ghost var was := Map();
      ok := Attach(node, key, value);
      LookupsAfterWrite(was, key.text, Text(value));
    }

    /** The tree is whole, and `node` is a complete block group that is not yet part of it. */
    ghost predicate Pending(node: TreeNode, key: Cell, value: Option<Cell>)
      reads this, live, node
    {
      && live == {this} + Blocks(shape) + {node, key.buffer} + CellBlock(value)
      && this !in Blocks(shape) && currentKey == null && currentValue == null
      && {node, key.buffer} + CellBlock(value) !! Blocks(shape)
      && (value.Some? ==> value.value.buffer != key.buffer)
      && Separate(shape) && Ordered(shape)
      && Linked(root, shape) && Single(node, key, value)
    }

    /** The second half of rh_ptree_push: the descent that attaches the node or replaces a value. */
    method Attach(node: TreeNode, ghost key: Cell, ghost value: Option<Cell>) returns (ok: bool)
      requires Pending(node, key, value)
      modifies live
      ensures ok && Valid() && live <= old(live)
      ensures shape == Put(old(shape), node, key, value)
      ensures currentKey == null && currentValue == null
    {
      hide Ordered, Contents, Put, Separate, CellHolds;
      ok := false;
      if root == null {
        LinkRoot(node, key, value);
        return true;
      }
      var cur := root;
      ghost var sub := shape;
      while cur != null
        invariant cur != null && sub.Branch? && Linked(cur, sub) && Blocks(sub) <= live
        invariant live == old(live) && shape == old(shape) && currentKey == null && currentValue == null
        invariant shape.Branch? && Pending(node, key, value)
        invariant Stop(shape, key.text) == Stop(sub, key.text)
        invariant StopCompare(shape, key.text) == StopCompare(sub, key.text)
        decreases sub
      {
        assert cur.key.text == sub.key.text && Linked(cur.left, sub.left) && Linked(cur.right, sub.right);
        CompareOpposite(key.text, sub.key.text);
        var cmp := StrCaseCmp(node.key.text, cur.key.text);
        if cmp == 0 {
          ReplaceValue(cur, node, key, value);
          return true;
        }
        if cmp < 0 {
          if cur.left == null {
            LinkChild(cur, true, node, key, value);
            return true;
          }
          cur, sub := cur.left, sub.left;
        } else {
          if cur.right == null {
            LinkChild(cur, false, node, key, value);
            return true;
          }
          cur, sub := cur.right, sub.right;
        }
      }
    }

    method LinkRoot(node: TreeNode, ghost key: Cell, ghost value: Option<Cell>)
      requires Pending(node, key, value) && root == null
      modifies this
      ensures Valid() && live == old(live)
      ensures shape == Put(old(shape), node, key, value)
      ensures currentKey == null && currentValue == null
    {
      root := node;
      shape := Put(shape, node, key, value);
    }

    /** The key is already there: its old value, the new key and the new node are freed. */
    method ReplaceValue(cur: TreeNode, node: TreeNode, ghost key: Cell, ghost value: Option<Cell>)
      requires Pending(node, key, value) && shape.Branch?
      requires cur == Stop(shape, key.text) && StopCompare(shape, key.text) == 0
      modifies live
      ensures Valid() && live <= old(live)
      ensures shape == Put(old(shape), node, key, value)
      ensures currentKey == null && currentValue == null
    {
      hide Put, Separate, Ordered, Contents, Blocks, Linked, LinkedExcept, Stop, StopCompare, HitValue;
      Detach(root, shape, cur);
      StopHolds(root, shape, key.text, cur);
      HitBlocks(shape, key.text);
      PutBlocksHit(shape, node, key, value);
      PutSeparateHit(shape, node, key, value);
      PutIsMapUpdate(shape, node, key, value);
      ghost var fields := Fields(cur.left, cur.right, cur.value);
      Free(cur.value);
      cur.value := node.value;
      PutLinked(root, shape, node, key, value, fields);
      Free(node.key);
      Free(node);
      LedgerAfterReplace(this, Blocks(shape), node, key.buffer, CellBlock(HitValue(shape, key.text)), CellBlock(value));
      shape := Put(shape, node, key, value);
    }

    method LinkChild(cur: TreeNode, leftward: bool, node: TreeNode, ghost key: Cell, ghost value: Option<Cell>)
      requires Pending(node, key, value) && shape.Branch?
      requires cur == Stop(shape, key.text)
      requires StopCompare(shape, key.text) == if leftward then -1 else 1
      requires if leftward then cur.left == null else cur.right == null
      modifies cur, this
      ensures Valid() && live == old(live)
      ensures shape == Put(old(shape), node, key, value)
      ensures currentKey == null && currentValue == null
    {
      hide Put, Separate, Ordered, Contents, Blocks, Linked, LinkedExcept, Stop, StopCompare;
      Detach(root, shape, cur);
      PutBlocksMiss(shape, node, key, value);
      PutIsMapUpdate(shape, node, key, value);
      ghost var fields := Fields(cur.left, cur.right, cur.value);
      if leftward {
        cur.left := node;
      } else {
        cur.right := node;
      }
      PutLinked(root, shape, node, key, value, fields);
      shape := Put(shape, node, key, value);
    }

    method GetValue(key: CString) returns (value: Option<CString>)
      requires Valid()
      ensures value == MapLookup(Map(), key)
      ensures forall name :: name in Map() && SameAsideCase(name, key) ==> value == Map()[name]
      ensures (forall name :: name in Map() ==> !SameAsideCase(name, key)) ==> value == None
    {
      hide Contents, MapLookup, SameAsideCase;
      var cur := root;
      ghost var sub := shape;
      LookupIsMapLookup(shape, key);
      LookupMeaning(shape, key);
      while cur != null
        invariant Linked(cur, sub) && Blocks(sub) <= live
        invariant Lookup(shape, key) == Lookup(sub, key)
        decreases sub
      {
        assert cur.key.text == sub.key.text;
        var cmp := StrCaseCmp(key, cur.key.text);
        assert Linked(cur, sub);
        if cmp == 0 {
          return if cur.value == null then None else Some(cur.value.text);
        }
        if cmp < 0 {
          cur, sub := cur.left, sub.left;
        } else {
          cur, sub := cur.right, sub.right;
        }
      }
      return None;
    }

    method FreeNodes(n: TreeNode?, ghost s: Shape)
      requires Linked(n, s) && Separate(s) && Blocks(s) <= live && this !in Blocks(s)
      modifies this`live
      ensures live == old(live) - Blocks(s)
      decreases s
    {
      if n == null {
        return;
      }
      if n.left != null {
        FreeNodes(n.left, s.left);
      }
      if n.right != null {
        FreeNodes(n.right, s.right);
      }
      Free(n.key);
      Free(n.value);
      Free(n);
    }

    /** rh_ptree_free: every live block is freed, once each, the tree itself last. */
    method FreeTree()
      requires Valid()
      modifies this`live
      ensures live == {}
    {
      FreeNodes(root, shape);
      Free(currentKey);
      Free(currentValue);
      Free(this);
    }
  }

  function Changed(change: Option<CString -> CString>, text: Option<CString>): Option<CString> {
    if change.Some? && text.Some? then Some(change.value(text.value)) else text
  }
}
