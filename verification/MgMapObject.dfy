/** The map as the code keeps it: one byte array that is searched, overwritten and
    doubled in place.  Every method does what the operation on nodes does. */
module MgMapObject {
  import opened Bits
  import opened InternetChecksum
  import opened MgMap

  const NO_MAP: int := -1
  const NO_DATA: int := -2
  const NO_KEY: int := -3
  const NO_OBJECT: int := -4
  const NO_VALUE_SIZE: int := -10
  const NO_COUNT: int := -11
  const IN_USE: int := -20

  datatype Place = At(offset: nat) | Null

  /** A pointer to as many bytes as a value has, or the null pointer. */
  datatype Object = Bytes(v: Value) | NullObject

  /** Where the value of node i is. */
  function ValueOffset(i: nat, nodeSize: nat): nat {
    i * nodeSize + 4
  }

  /** The key as the machine stores it. */
  function KeyBytes(key: nat): (r: seq<Byte>)
    ensures |r| == 4
  {
    [key % 256, key / 256 % 256, key / 256 / 256 % 256, key / 256 / 256 / 256 % 256]
  }

  lemma KeyBytesWord(key: nat)
    requires key < TWO_32
    ensures var b := KeyBytes(key); Word4(b[0], b[1], b[2], b[3]) == key
  {
    var q1 := key / 256;
    var q2 := q1 / 256;
    var q3 := q2 / 256;
    assert q3 < 256;
    assert key == 256 * q1 + key % 256 && q1 == 256 * q2 + q1 % 256 && q2 == 256 * q3 + q2 % 256;
  }

  /** The node in a window of the array. */
  function NodeIn(w: seq<Byte>): Node
    requires |w| >= 4
  {
    Node(Word4(w[0], w[1], w[2], w[3]), w[4..])
  }

  lemma Inside(i: nat, count: nat, nodeSize: nat)
    requires i < count
    ensures i * nodeSize + nodeSize <= count * nodeSize
  {
    assert count * nodeSize == i * nodeSize + (count - i) * nodeSize;
    assert (count - i) * nodeSize == nodeSize + (count - i - 1) * nodeSize;
  }

  /** The bytes of node i. */
  function Window(data: seq<Byte>, nodeSize: nat, count: nat, i: nat): (r: seq<Byte>)
    requires count * nodeSize <= |data| && i < count
    ensures |r| == nodeSize
  {
    Inside(i, count, nodeSize);
    data[i * nodeSize..i * nodeSize + nodeSize]
  }

  ghost function NodesOf(data: seq<Byte>, nodeSize: nat, count: nat): (r: seq<Node>)
    requires nodeSize >= 4 && count * nodeSize <= |data|
    ensures |r| == count
  {
    seq(count, i requires 0 <= i < count => NodeIn(Window(data, nodeSize, count, i)))
  }

  /** The bytes with others written over them. */
  function Overwrite(data: seq<Byte>, a: nat, bytes: seq<Byte>): (r: seq<Byte>)
    requires a + |bytes| <= |data|
    ensures |r| == |data|
  {
    data[..a] + bytes + data[a + |bytes|..]
  }

  lemma OverwriteElsewhere(data: seq<Byte>, a: nat, bytes: seq<Byte>, b: nat, n: nat)
    requires a + |bytes| <= |data| && b + n <= |data| && (b + n <= a || a + |bytes| <= b)
    ensures Overwrite(data, a, bytes)[b..b + n] == data[b..b + n]
  {
  }

  lemma OverwriteNode(data: seq<Byte>, nodeSize: nat, count: nat, i: nat, key: nat, v: Value)
    requires nodeSize >= 4 && i < count && count * nodeSize <= |data| && |v| == nodeSize - 4 && key < TWO_32
    requires i * nodeSize + nodeSize <= |data|
    ensures NodesOf(Overwrite(data, i * nodeSize, KeyBytes(key) + v), nodeSize, count) ==
            NodesOf(data, nodeSize, count)[i := Node(key, v)]
  {
    var bytes := KeyBytes(key) + v;
    var r := Overwrite(data, i * nodeSize, bytes);
    KeyBytesWord(key);
    assert NodeIn(bytes) == Node(key, v);
    hide KeyBytes, NodeIn;
    forall j: nat | j < count && j != i
      ensures Window(r, nodeSize, count, j) == Window(data, nodeSize, count, j)
    {
      WindowElsewhere(data, nodeSize, count, i, bytes, j);
    }
    assert Window(r, nodeSize, count, i) == bytes;
    hide Window, Overwrite;
  }

  lemma WindowElsewhere(data: seq<Byte>, nodeSize: nat, count: nat, i: nat, bytes: seq<Byte>, j: nat)
    requires i < count && j < count && i != j && count * nodeSize <= |data| && |bytes| == nodeSize
    requires i * nodeSize + nodeSize <= |data|
    ensures Window(Overwrite(data, i * nodeSize, bytes), nodeSize, count, j) == Window(data, nodeSize, count, j)
  {
    Inside(j, count, nodeSize);
    if j < i {
      Inside(j, i, nodeSize);
    } else {
      Inside(i, j, nodeSize);
    }
    OverwriteElsewhere(data, i * nodeSize, bytes, j * nodeSize, nodeSize);
  }

  /** The bytes behind a node's key are its value. */
  lemma ValueAt(data: seq<Byte>, nodeSize: nat, count: nat, i: nat)
    requires nodeSize >= 4 && count * nodeSize <= |data| && i < count
    ensures var o := ValueOffset(i, nodeSize);
            o + nodeSize - 4 <= |data| && data[o..o + nodeSize - 4] == NodesOf(data, nodeSize, count)[i].value
  {
    Inside(i, count, nodeSize);
    assert Window(data, nodeSize, count, i)[4..] == data[i * nodeSize + 4..i * nodeSize + nodeSize];
  }

  lemma Twice(count: nat, nodeSize: nat)
    ensures 2 * count * nodeSize == 2 * (count * nodeSize) == nodeSize * count * 2
  {
  }

  /** Twice the bytes, the new half zero. */
  lemma DoubledNodes(data: seq<Byte>, nodeSize: nat, count: nat)
    requires nodeSize >= 4 && |data| == count * nodeSize
    ensures 2 * count * nodeSize == 2 * |data|
    ensures NodesOf(data + Zeros(|data|), nodeSize, 2 * count) ==
            NodesOf(data, nodeSize, count) + Fresh(count, nodeSize - 4)
  {
    Twice(count, nodeSize);
    hide *;
    var r := NodesOf(data + Zeros(|data|), nodeSize, 2 * count);
    forall j: nat | j < 2 * count
      ensures r[j] == if j < count then NodesOf(data, nodeSize, count)[j] else Node(0, Zeros(nodeSize - 4))
    {
      DoubledAt(data, nodeSize, count, j);
    }
  }

  lemma DoubledAt(data: seq<Byte>, nodeSize: nat, count: nat, j: nat)
    requires nodeSize >= 4 && |data| == count * nodeSize && j < 2 * count && 2 * count * nodeSize == 2 * |data|
    ensures NodesOf(data + Zeros(|data|), nodeSize, 2 * count)[j] ==
            if j < count then NodesOf(data, nodeSize, count)[j] else Node(0, Zeros(nodeSize - 4))
  {
    hide *;
    ZeroNode(nodeSize);
    WindowDoubled(data, nodeSize, count, j);
    NodesAt(data + Zeros(|data|), nodeSize, 2 * count, j);
    if j < count {
      NodesAt(data, nodeSize, count, j);
    }
  }

  lemma NodesAt(data: seq<Byte>, nodeSize: nat, count: nat, j: nat)
    requires nodeSize >= 4 && count * nodeSize <= |data| && j < count
    ensures NodesOf(data, nodeSize, count)[j] == NodeIn(Window(data, nodeSize, count, j))
  {
  }

  lemma ZeroNode(nodeSize: nat)
    requires nodeSize >= 4
    ensures NodeIn(Zeros(nodeSize)) == Node(0, Zeros(nodeSize - 4))
  {
    hide Zeros;
    assert Zeros(nodeSize)[4..] == Zeros(nodeSize - 4);
  }

  lemma WindowDoubled(data: seq<Byte>, nodeSize: nat, count: nat, j: nat)
    requires |data| == count * nodeSize && j < 2 * count && 2 * count * nodeSize == 2 * |data|
    ensures Window(data + Zeros(|data|), nodeSize, 2 * count, j) ==
            (if j < count then Window(data, nodeSize, count, j) else Zeros(nodeSize))
  {
    hide Zeros;
    Inside(j, 2 * count, nodeSize);
    var b := j * nodeSize;
    if j < count {
      Inside(j, count, nodeSize);
      SliceDoubled(data, b, nodeSize);
    } else {
      BehindHalf(j, count, nodeSize);
      SliceDoubled(data, b, nodeSize);
    }
  }

  lemma BehindHalf(j: nat, count: nat, nodeSize: nat)
    requires j >= count
    ensures j * nodeSize >= count * nodeSize
  {
    assert j * nodeSize == count * nodeSize + (j - count) * nodeSize;
  }

  lemma SliceDoubled(data: seq<Byte>, a: nat, n: nat)
    requires a + n <= 2 * |data| && (a + n <= |data| || a >= |data|)
    ensures (data + Zeros(|data|))[a..a + n] == if a + n <= |data| && n > 0 then data[a..a + n] else Zeros(n)
  {
    hide Zeros;
  }

  class Map {
    var count: nat
    var nodeSize: nat
    var data: array?<Byte>

    constructor ()
      ensures data == null && Valid()
    {
      count, nodeSize, data := 0, 0, null;
    }

    ghost predicate Valid()
      reads this
    {
      data != null ==> nodeSize > 4 && count >= 1 && data.Length == count * nodeSize
    }

    ghost function Nodes(): (r: seq<Node>)
      requires Valid() && data != null
      reads this, data
      ensures |r| == count
    {
      NodesOf(data[..], nodeSize, count)
    }

    /** mg_map_init on a map without data. */
    method Start(valueSize: nat, initialCount: nat)
      requires data == null && valueSize >= 1 && initialCount >= 1
      modifies this
      ensures Valid() && data != null && fresh(data) && nodeSize == valueSize + 4
      ensures Nodes() == Fresh(initialCount, valueSize)
    {
      nodeSize := valueSize + 4;
      count := initialCount;
      var total := nodeSize * count;
      data := new Byte[total](_ => 0);
      assert data[..] == Zeros(total);
      hide NodesOf, Zeros, Fresh, Window, NodeIn;
      ZeroNodes(data[..], nodeSize, count);
    }

    /** The key of node i. */
    method LoadKey(i: nat) returns (k: nat)
      requires Valid() && data != null && i < count
      ensures k == Nodes()[i].key
    {
      Inside(i, count, nodeSize);
      var a := i * nodeSize;
      k := Word4(data[a], data[a + 1], data[a + 2], data[a + 3]);
      assert Window(data[..], nodeSize, count, i) == data[a..a + nodeSize];
    }

    /** Where the value of node i is. */
    lemma ValueHere(i: nat)
      requires Valid() && data != null && i < count
      ensures var o := ValueOffset(i, nodeSize);
              4 <= o <= o + nodeSize - 4 <= data.Length && Nodes()[i].value == data[o..o + nodeSize - 4]
    {
      ValueAt(data[..], nodeSize, count, i);
    }

    /** The search loop of mg_map_get. */
    method FindKey(key: nat) returns (place: Place)
      requires Valid() && data != null
      ensures var i := Find(Nodes(), key);
              if i < count then place == At(ValueOffset(i, nodeSize)) else place == Null
      ensures place.At? ==>
                && 4 <= place.offset <= place.offset + nodeSize - 4 <= data.Length
                && Find(Nodes(), key) < count
                && Nodes()[Find(Nodes(), key)].value == data[place.offset..place.offset + nodeSize - 4]
    {
      hide *;
      var i := 0;
      while i < count
        invariant i <= count
        invariant forall j | 0 <= j < i :: Nodes()[j].key != key
      {
        var k := LoadKey(i);
        if k == key {
          FindIs(Nodes(), key, i);
          ValueHere(i);
          return At(ValueOffset(i, nodeSize));
        }
        i := i + 1;
      }
      place := Null;
    }

    method StoreNode(i: nat, key: nat, object_: Value)
      requires Valid() && data != null && i < count && key < TWO_32 && |object_| == nodeSize - 4
      modifies data
      ensures Nodes() == old(Nodes())[i := Node(key, object_)]
    {
      Inside(i, count, nodeSize);
      ghost var was := data[..];
      var (a, b) := (i * nodeSize, KeyBytes(key));
      data[a], data[a + 1], data[a + 2], data[a + 3] := b[0], b[1], b[2], b[3];
      forall j | 0 <= j < nodeSize - 4 {
        data[a + 4 + j] := object_[j];
      }
      assert data[..] == Overwrite(was, a, b + object_);
      OverwriteNode(was, nodeSize, count, i, key, object_);
    }

    /** The search loop of mg_map_add. */
    method FindFree() returns (place: nat)
      requires Valid() && data != null
      ensures place == Find(Nodes(), 0)
    {
      place := 0;
      hide NodesOf;
      while place < count
        invariant place <= count
        invariant forall j | 0 <= j < place :: Nodes()[j].key != 0
      {
        var k := LoadKey(place);
        if k == 0 {
          FindIs(Nodes(), 0, place);
          return;
        }
        place := place + 1;
      }
    }

    /** mg_map_add with proper arguments. */
    method Insert(key: nat, v: Value)
      requires Valid() && data != null && 0 < key < TWO_32 && |v| == nodeSize - 4
      modifies this, data
      ensures Valid() && nodeSize == old(nodeSize) && data != null && (data == old(data) || fresh(data))
      ensures Nodes() == Added(old(Nodes()), key, v)
    {
      var place := FindFree();
      if place == count {
        Double();
      }
      StoreNode(place, key, v);
    }

    /** The resize branch of mg_map_add. */
    method Double()
      requires Valid() && data != null
      modifies this`count, this`data
      ensures Valid() && data != null && fresh(data) && count == 2 * old(count)
      ensures Nodes() == old(Nodes()) + Fresh(old(count), nodeSize - 4)
    {
      Twice(count, nodeSize);
      DoubledNodes(data[..], nodeSize, count);
      hide *;
      data := Grow(data, nodeSize * count * 2);
      count := count * 2;
    }

    /** realloc, and the new half cleared. */
    static method Grow(bytes: array<Byte>, total: nat) returns (grown: array<Byte>)
      requires total == 2 * bytes.Length
      ensures fresh(grown) && grown[..] == bytes[..] + Zeros(bytes.Length)
    {
      grown := new Byte[total](_ => 0);
      forall j | 0 <= j < bytes.Length {
        grown[j] := bytes[j];
      }
      hide Zeros;
      assert grown[..] == bytes[..] + Zeros(bytes.Length);
    }

    /** mg_map_set with proper arguments. */
    method Store(key: nat, v: Value)
      requires Valid() && data != null && 0 < key < TWO_32 && |v| == nodeSize - 4
      modifies this, data
      ensures Valid() && nodeSize == old(nodeSize) && data != null && (data == old(data) || fresh(data))
      ensures Nodes() == Stored(old(Nodes()), key, v)
    {
      var place := FindKey(key);
      if place == Null {
        Insert(key, v);
      } else {
        PlaceOf(Find(Nodes(), key), nodeSize);
        StoreNode((place.offset - 4) / nodeSize, key, v);
      }
    }

    /** mg_map_del with proper arguments. */
    method Remove(key: nat)
      requires Valid() && data != null && 0 < key < TWO_32
      modifies data
      ensures Nodes() == Deleted(old(Nodes()), key)
    {
      var place := FindKey(key);
      if place != Null {
        PlaceOf(Find(Nodes(), key), nodeSize);
        StoreNode((place.offset - 4) / nodeSize, 0, Zeros(nodeSize - 4));
      }
    }

    /** The object is as long as a value. */
    predicate Fits(object_: Object)
      reads this
    {
      data != null && object_.Bytes? ==> |object_.v| == nodeSize - 4
    }

    /** mg_map_init. */
    static method Init(m: Map?, valueSize: nat, initialCount: nat) returns (code: int)
      requires m != null ==> m.Valid()
      modifies m
      ensures m != null ==> m.Valid()
      ensures code == if m == null then -1 else if valueSize == 0 then -10
                      else if initialCount == 0 then -11 else if old(m.data) != null then -20 else 0
      ensures m != null && code != 0 ==> unchanged(m)
      ensures code == 0 ==> m.data != null && fresh(m.data) && m.nodeSize == valueSize + 4
      ensures code == 0 ==> m.Nodes() == Fresh(initialCount, valueSize)
    {
      if m == null { return NO_MAP; }
      if valueSize <= 0 { return NO_VALUE_SIZE; }
      if initialCount <= 0 { return NO_COUNT; }
      if m.data != null { return IN_USE; }
      m.Start(valueSize, initialCount);
      code := 0;
    }

    /** mg_map_get: where the value is. */
    static method Get(m: Map?, key: nat) returns (place: Place)
      requires m != null ==> m.Valid()
      ensures m == null || m.data == null || key == 0 ==> place == Null
      ensures m != null && m.data != null && key != 0 ==>
                var i := Find(m.Nodes(), key);
                if i < m.count then place == At(ValueOffset(i, m.nodeSize)) else place == Null
      ensures m != null && place.At? ==>
                && m.data != null && 4 <= place.offset <= place.offset + m.nodeSize - 4 <= m.data.Length
                && Got(m.Nodes(), key) == [m.data[place.offset..place.offset + m.nodeSize - 4]]
      ensures m != null && m.data != null && place.Null? ==> Got(m.Nodes(), key) == []
    {
      if m == null || m.data == null || key <= 0 {
        return Null;
      }
      place := m.FindKey(key);
      hide Find, ValueOffset;
    }

    /** mg_map_add. */
    static method Add(m: Map?, key: nat, object_: Object) returns (code: int)
      requires m != null ==> m.Valid() && m.Fits(object_)
      requires key < TWO_32
      modifies m, if m == null then null else m.data
      ensures m != null ==> m.Valid() && m.nodeSize == old(m.nodeSize)
      ensures code == if m == null then -1 else if old(m.data) == null then -2
                      else if key == 0 then -3 else if object_ == NullObject then -4 else 0
      ensures m != null && code != 0 ==> m.data == old(m.data) && m.count == old(m.count)
      ensures m != null && old(m.data) != null ==> m.data != null && (m.data == old(m.data) || fresh(m.data))
      ensures m != null && old(m.data) != null ==>
                m.Nodes() == if code == 0 then Added(old(m.Nodes()), key, object_.v) else old(m.Nodes())
    {
      if m == null { return NO_MAP; }
      if m.data == null { return NO_DATA; }
      if key == 0 { return NO_KEY; }
      if object_ == NullObject { return NO_OBJECT; }
      m.Insert(key, object_.v);
      code := 0;
    }

    /** mg_map_set. */
    static method Set(m: Map?, key: nat, object_: Object) returns (code: int)
      requires m != null ==> m.Valid() && m.Fits(object_)
      requires key < TWO_32
      modifies m, if m == null then null else m.data
      ensures m != null ==> m.Valid() && m.nodeSize == old(m.nodeSize)
      ensures code == if m == null then -1 else if old(m.data) == null then -2
                      else if key == 0 then -3 else if object_ == NullObject then -4 else 0
      ensures m != null && code != 0 ==> m.data == old(m.data) && m.count == old(m.count)
      ensures m != null && old(m.data) != null ==> m.data != null && (m.data == old(m.data) || fresh(m.data))
      ensures m != null && old(m.data) != null ==>
                m.Nodes() == if code == 0 then Stored(old(m.Nodes()), key, object_.v) else old(m.Nodes())
    {
      if m == null { return NO_MAP; }
      if m.data == null { return NO_DATA; }
      if key == 0 { return NO_KEY; }
      if object_ == NullObject { return NO_OBJECT; }
      m.Store(key, object_.v);
      code := 0;
    }

    /** mg_map_del. */
    static method Del(m: Map?, key: nat) returns (code: int)
      requires m != null ==> m.Valid()
      requires key < TWO_32
      modifies if m == null then null else m.data
      ensures m != null ==> m.Valid()
      ensures code == if m == null then -1 else if m.data == null then -2 else if key == 0 then -3 else 0
      ensures m != null && m.data != null ==>
                m.Nodes() == if code == 0 then Deleted(old(m.Nodes()), key) else old(m.Nodes())
    {
      if m == null { return NO_MAP; }
      if m.data == null { return NO_DATA; }
      if key == 0 { return NO_KEY; }
      m.Remove(key);
      code := 0;
    }
  }

  lemma PlaceOf(i: nat, nodeSize: nat)
    requires nodeSize >= 1
    ensures (ValueOffset(i, nodeSize) - 4) / nodeSize == i
  {
    DivModUnique(i * nodeSize, nodeSize, i, 0);
  }

  lemma ZeroNodes(data: seq<Byte>, nodeSize: nat, count: nat)
    requires nodeSize >= 4 && |data| == count * nodeSize && data == Zeros(|data|)
    ensures NodesOf(data, nodeSize, count) == Fresh(count, nodeSize - 4)
  {
    hide *;
    forall j: nat | j < count
      ensures NodesOf(data, nodeSize, count)[j] == Node(0, Zeros(nodeSize - 4))
    {
      ZeroAt(data, nodeSize, count, j);
    }
  }

  lemma ZeroAt(data: seq<Byte>, nodeSize: nat, count: nat, j: nat)
    requires nodeSize >= 4 && |data| == count * nodeSize && data == Zeros(|data|) && j < count
    ensures NodesOf(data, nodeSize, count)[j] == Node(0, Zeros(nodeSize - 4))
  {
    Inside(j, count, nodeSize);
    assert Window(data, nodeSize, count, j) == Zeros(nodeSize);
    hide *;
    ZeroNode(nodeSize);
    NodesAt(data, nodeSize, count, j);
  }
}
