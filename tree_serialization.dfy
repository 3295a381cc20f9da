/** A tree of named nodes carrying two float values, with a dictionary form
    and a length-prefixed binary form. Names are held as their encoded bytes
    and values as their float32 bit patterns. */
module TreeSerialization {
  import opened Bytes
  import opened Wrappers

  datatype Node = Node(name: seq<byte>, value1: Bits32, value2: Bits32, nodes: seq<Node>)

  /** A node with no children, as Node(name, value1, value2) builds it. */
  function NewNode(name: seq<byte>, value1: Bits32, value2: Bits32): (n: Node)
    ensures n.name == name && n.value1 == value1 && n.value2 == value2 && n.nodes == []
  {
    Node(name, value1, value2, [])
  }

  /** add_node: the child goes after the existing children. */
  function AddNode(n: Node, child: Node): (r: Node)
    ensures r.name == n.name && r.value1 == n.value1 && r.value2 == n.value2
    ensures |r.nodes| == |n.nodes| + 1 && r.nodes[..|n.nodes|] == n.nodes && r.nodes[|n.nodes|] == child
  {
    n.(nodes := n.nodes + [child])
  }

  // ---------------------------------------------------------------------
  // Dictionary form

  /** The values a to_dict result is built from. */
  datatype Value = Str(s: seq<byte>) | Float(f: Bits32) | List(items: seq<Value>) | Dict(entries: map<string, Value>)

  /** to_dict: a dictionary with keys name, value1, value2 and nodes, the
      last holding the children's dictionaries in child order. */
  function ToDict(n: Node): Value
  {
    Dict(map[
      "name" := Str(n.name),
      "value1" := Float(n.value1),
      "value2" := Float(n.value2),
      "nodes" := List(seq(|n.nodes|, i requires 0 <= i < |n.nodes| => ToDict(n.nodes[i])))])
  }

  /** All options present, in order. */
  function AllSome<T>(xs: seq<Option<T>>): (r: Option<seq<T>>)
    ensures r.Some? <==> forall i :: 0 <= i < |xs| ==> xs[i].Some?
    ensures r.Some? ==> |r.value| == |xs| && forall i :: 0 <= i < |xs| ==> r.value[i] == xs[i].value
  {
    if xs == [] then Some([])
    else if xs[0].None? then None
    else
      var rest := AllSome(xs[1..]);
      if rest.None? then None else Some([xs[0].value] + rest.value)
  }

  /** from_dict: None for a missing key, where Python raises KeyError, and
      for a value of another kind than to_dict writes. Python builds a Node
      holding such a value; the model's Node cannot hold it, so it rejects
      the dictionary. */
  function FromDict(v: Value): Option<Node>
  {
    match v
    case Dict(m) =>
      if "name" in m && "value1" in m && "value2" in m && "nodes" in m
         && m["name"].Str? && m["value1"].Float? && m["value2"].Float? && m["nodes"].List?
      then
        var items := m["nodes"].items;
        var children := AllSome(seq(|items|, i requires 0 <= i < |items| => FromDict(items[i])));
        if children.None? then None
        else Some(Node(m["name"].s, m["value1"].f, m["value2"].f, children.value))
      else None
    case _ => None
  }

  /** from_dict(to_dict(n)) rebuilds n: name, both values and the children
      in order. */
  lemma {:induction false} DictRoundTrip(n: Node)
    ensures FromDict(ToDict(n)) == Some(n)
  {
    var items := seq(|n.nodes|, i requires 0 <= i < |n.nodes| => ToDict(n.nodes[i]));
    forall i | 0 <= i < |n.nodes|
      ensures FromDict(items[i]) == Some(n.nodes[i])
    {
      DictRoundTrip(n.nodes[i]);
    }
    var decoded := seq(|items|, i requires 0 <= i < |items| => FromDict(items[i]));
    assert AllSome(decoded).value == n.nodes;
  }

  /** to_dict lists an added child after the existing ones. */
  lemma AddNodeToDict(n: Node, child: Node)
    ensures ToDict(AddNode(n, child)).entries["nodes"].items
            == ToDict(n).entries["nodes"].items + [ToDict(child)]
  {
    var r := AddNode(n, child);
    assert r.nodes == n.nodes + [child];
  }

  // ---------------------------------------------------------------------
  // Binary form

  /** One record of the binary form: pack("i", len(name)) + name + the two
      values big-endian + pack("i", len(children data)) + children data. */
  function Record(name: seq<byte>, v1: Bits32, v2: Bits32, children: seq<byte>): seq<byte>
    requires FitsI32(|name|) && FitsI32(|children|)
  {
    PackI32(|name|) + (name + (PackBE32(v1) + (PackBE32(v2) + (PackI32(|children|) + children))))
  }

  /** to_binary as a value: None where a length does not fit in pack("i")
      (Python raises struct.error). */
  function Encode(n: Node): Option<seq<byte>>
    decreases n, 1
  {
    var children := EncodeAll(n.nodes);
    if children.None? || !FitsI32(|n.name|) || !FitsI32(|children.value|) then None
    else Some(Record(n.name, n.value1, n.value2, children.value))
  }

  /** The children data: each child's encoding, in order. */
  function EncodeAll(ns: seq<Node>): Option<seq<byte>>
    decreases ns, 0
  {
    if ns == [] then Some([])
    else
      var first, rest := Encode(ns[0]), EncodeAll(ns[1..]);
      if first.None? || rest.None? then None else Some(first.value + rest.value)
  }

  /** The encoding of a list extended by one node. */
  lemma {:induction false} EncodeAllAppend(ns: seq<Node>, n: Node)
    ensures EncodeAll(ns + [n]) ==
            if EncodeAll(ns).None? || Encode(n).None? then None
            else Some(EncodeAll(ns).value + Encode(n).value)
  {
    if ns == [] {
      assert [n][1..] == [];
      assert ns + [n] == [n];
      if Encode(n).Some? {
        assert Encode(n).value + [] == [] + Encode(n).value;
      }
    } else {
      var all := ns + [n];
      assert all[0] == ns[0] && all[1..] == ns[1..] + [n];
      EncodeAllAppend(ns[1..], n);
      var first, middle, last := Encode(ns[0]), EncodeAll(ns[1..]), Encode(n);
      assert EncodeAll(ns) == if first.None? || middle.None? then None else Some(first.value + middle.value);
      if first.Some? && middle.Some? && last.Some? {
        assert first.value + (middle.value + last.value) == (first.value + middle.value) + last.value;
      }
    }
  }

  /** to_binary(n), accumulating the children data in a loop. */
  method ToBinary(n: Node) returns (r: Option<seq<byte>>)
    ensures r == Encode(n)
    decreases n
  {
    var data: seq<byte> := [];
    for i := 0 to |n.nodes|
      invariant EncodeAll(n.nodes[..i]) == Some(data)
    {
      var bnode := ToBinary(n.nodes[i]);
      EncodeAllAppend(n.nodes[..i], n.nodes[i]);
      assert n.nodes[..i + 1] == n.nodes[..i] + [n.nodes[i]];
      if bnode.None? {
        NoneSpreads(n.nodes, i + 1);
        return None;
      }
      data := data + bnode.value;
    }
    assert n.nodes[..|n.nodes|] == n.nodes;
    if !FitsI32(|n.name|) || !FitsI32(|data|) {
      return None;
    }
    var bname := n.name;
    var bvals := PackBE32(n.value1) + PackBE32(n.value2);
    var result := PackI32(|bname|) + bname + bvals + PackI32(|data|) + data;
    assert result == Record(n.name, n.value1, n.value2, data);
    r := Some(result);
  }

  /** A child that cannot be encoded makes the whole list unencodable. */
  lemma {:induction false} NoneSpreads(ns: seq<Node>, i: nat)
    requires i <= |ns| && EncodeAll(ns[..i]).None?
    ensures EncodeAll(ns).None?
    decreases |ns| - i
  {
    if i < |ns| {
      EncodeAllAppend(ns[..i], ns[i]);
      assert ns[..i + 1] == ns[..i] + [ns[i]];
      NoneSpreads(ns, i + 1);
    } else {
      assert ns[..i] == ns;
    }
  }

  /** Number of nodes in the tree. */
  function Count(n: Node): nat
    decreases n, 1
  {
    1 + CountAll(n.nodes)
  }

  function CountAll(ns: seq<Node>): nat
    decreases ns, 0
  {
    if ns == [] then 0 else Count(ns[0]) + CountAll(ns[1..])
  }

  /** Total length of all names in the tree. */
  function NameBytes(n: Node): nat
    decreases n, 1
  {
    |n.name| + NameBytesAll(n.nodes)
  }

  function NameBytesAll(ns: seq<Node>): nat
    decreases ns, 0
  {
    if ns == [] then 0 else NameBytes(ns[0]) + NameBytesAll(ns[1..])
  }

  /** Every node costs sixteen bytes of header plus its name. */
  lemma {:induction false} EncodedSize(n: Node)
    requires Encode(n).Some?
    ensures |Encode(n).value| == 16 * Count(n) + NameBytes(n)
    decreases n, 1
  {
    EncodedSizeAll(n.nodes);
  }

  lemma {:induction false} EncodedSizeAll(ns: seq<Node>)
    requires EncodeAll(ns).Some?
    ensures |EncodeAll(ns).value| == 16 * CountAll(ns) + NameBytesAll(ns)
    decreases ns, 0
  {
    if ns != [] {
      EncodedSize(ns[0]);
      EncodedSizeAll(ns[1..]);
    }
  }

  /** from_binary on a buffer: the node and len_name + 16 + len_childs.
      None where Python raises (a slice too short for struct.unpack), where it
      would loop forever (a child whose reported size is not positive), and
      for a negative name length, which the model rejects (Python's slices
      would then count from the end of the buffer). */
  function Decode(data: seq<byte>): Option<(Node, int)>
    decreases |data|, 0, 0
  {
    if |data| < 4 then None
    else
      var lenName := UnpackI32(data[..4]);
      if lenName < 0 || |data| < lenName + 16 then None
      else
        var lenChilds := UnpackI32(data[lenName + 12..lenName + 16]);
        Assemble(data[4..4 + lenName],
                 UnpackBE32(data[4 + lenName..lenName + 8]),
                 UnpackBE32(data[lenName + 8..lenName + 12]),
                 lenChilds,
                 DecodeChildren(data[lenName + 16..], 0, lenChilds))
  }

  /** The node from_binary returns, with current_size, once its children
      have been read; None when reading a child failed. */
  function Assemble(name: seq<byte>, v1: Bits32, v2: Bits32, lenChilds: int, children: Option<seq<Node>>): (r: Option<(Node, int)>)
    ensures r.Some? <==> children.Some?
  {
    if children.None? then None
    else Some((Node(name, v1, v2, children.value), |name| + 16 + lenChilds))
  }

  /** The children loop of from_binary from cursor on: decode a node from
      the remaining bytes and advance by its reported size while cursor is
      below len_childs. */
  function DecodeChildren(dataChilds: seq<byte>, cursor: nat, lenChilds: int): Option<seq<Node>>
    decreases |dataChilds|, 1, lenChilds - cursor
  {
    if cursor >= lenChilds then Some([])
    else
      var child := Decode(if cursor <= |dataChilds| then dataChilds[cursor..] else []);
      if child.None? || child.value.1 <= 0 then None
      else
        var rest := DecodeChildren(dataChilds, cursor + child.value.1, lenChilds);
        if rest.None? then None else Some([child.value.0] + rest.value)
  }

  /** Decoding after a cursor that has already produced some nodes. */
  function Prepend(ns: seq<Node>, rest: Option<seq<Node>>): Option<seq<Node>>
  {
    if rest.None? then None else Some(ns + rest.value)
  }

  /** from_binary(data): the header fields, then the children loop. */
  method FromBinary(data: seq<byte>) returns (r: Option<(Node, int)>)
    ensures r == Decode(data)
    decreases |data|, 0
  {
    if |data| < 4 {
      return None;
    }
    var lenName := UnpackI32(data[..4]);
    if lenName < 0 || |data| < lenName + 16 {
      return None;
    }
    var name := data[4..4 + lenName];
    var value1, value2 := UnpackBE32(data[4 + lenName..lenName + 8]), UnpackBE32(data[lenName + 8..lenName + 12]);
    var dataChilds := data[lenName + 16..];
    var lenChilds := UnpackI32(data[lenName + 12..lenName + 16]);
    var currentSize := lenName + 16 + lenChilds;
    var nodes := ReadChildren(dataChilds, lenChilds);
    if nodes.None? {
      return None;
    }
    r := Some((Node(name, value1, value2, nodes.value), currentSize));
  }

  /** The while loop of from_binary: decode a child at the cursor and
      advance the cursor by its size until it reaches len_childs. */
  method ReadChildren(dataChilds: seq<byte>, lenChilds: int) returns (nodes: Option<seq<Node>>)
    ensures nodes == DecodeChildren(dataChilds, 0, lenChilds)
    decreases |dataChilds|, 2
  {
    var found: seq<Node> := [];
    var cursor: nat := 0;
    PrependEmpty(DecodeChildren(dataChilds, 0, lenChilds));
    while cursor < lenChilds
      invariant DecodeChildren(dataChilds, 0, lenChilds) == Prepend(found, DecodeChildren(dataChilds, cursor, lenChilds))
      decreases lenChilds - cursor
    {
      var child := ReadChild(dataChilds, found, cursor, lenChilds);
      if child.None? || child.value.1 <= 0 {
        return None;
      }
      found := found + [child.value.0];
      cursor := cursor + child.value.1;
    }
    assert found + [] == found;
    nodes := Some(found);
  }

  /** Node.from_binary(data_childs[cursor:]) inside the children loop. */
  method ReadChild(dataChilds: seq<byte>, ghost found: seq<Node>, cursor: nat, lenChilds: int) returns (child: Option<(Node, int)>)
    requires cursor < lenChilds
    requires DecodeChildren(dataChilds, 0, lenChilds) == Prepend(found, DecodeChildren(dataChilds, cursor, lenChilds))
    ensures child.None? || child.value.1 <= 0 ==> DecodeChildren(dataChilds, 0, lenChilds).None?
    ensures child.Some? && child.value.1 > 0 ==>
              DecodeChildren(dataChilds, 0, lenChilds)
              == Prepend(found + [child.value.0], DecodeChildren(dataChilds, cursor + child.value.1, lenChilds))
    decreases |dataChilds|, 1
  {
    child := FromBinary(if cursor <= |dataChilds| then dataChilds[cursor..] else []);
    ChildrenLoopStep(dataChilds, found, cursor, lenChilds, child);
  }

  /** One turn of the children loop, in terms of the nodes read so far. */
  lemma ChildrenLoopStep(dataChilds: seq<byte>, found: seq<Node>, cursor: nat, lenChilds: int, child: Option<(Node, int)>)
    requires cursor < lenChilds
    requires child == Decode(if cursor <= |dataChilds| then dataChilds[cursor..] else [])
    requires DecodeChildren(dataChilds, 0, lenChilds) == Prepend(found, DecodeChildren(dataChilds, cursor, lenChilds))
    ensures child.None? || child.value.1 <= 0 ==> DecodeChildren(dataChilds, 0, lenChilds).None?
    ensures child.Some? && child.value.1 > 0 ==>
              DecodeChildren(dataChilds, 0, lenChilds)
              == Prepend(found + [child.value.0], DecodeChildren(dataChilds, cursor + child.value.1, lenChilds))
  {
    DecodeChildrenStep(dataChilds, cursor, lenChilds, child);
    if child.Some? && child.value.1 > 0 {
      PrependTwice(found, [child.value.0], DecodeChildren(dataChilds, cursor + child.value.1, lenChilds));
    }
  }

  lemma PrependEmpty(rest: Option<seq<Node>>)
    ensures Prepend([], rest) == rest
  {
    if rest.Some? {
      assert [] + rest.value == rest.value;
    }
  }

  lemma PrependTwice(xs: seq<Node>, ys: seq<Node>, rest: Option<seq<Node>>)
    ensures Prepend(xs, Prepend(ys, rest)) == Prepend(xs + ys, rest)
  {
    if rest.Some? {
      assert xs + (ys + rest.value) == (xs + ys) + rest.value;
    }
  }

  /** Decoding the binary form of a node followed by any bytes gives the node
      back with its encoded length as the consumed size. */
  lemma {:induction false} BinaryRoundTrip(n: Node, rest: seq<byte>)
    requires Encode(n).Some?
    ensures Decode(Encode(n).value + rest) == Some((n, |Encode(n).value|))
    decreases n, 0
  {
    var children := EncodeAll(n.nodes).value;
    var record := Record(n.name, n.value1, n.value2, children);
    assert Encode(n).value == record;
    var tail := children + rest;
    DecodeRecord(n.name, n.value1, n.value2, children, rest);
    assert tail[0..] == tail;
    assert Decode(record + rest) == Assemble(n.name, n.value1, n.value2, |children|, DecodeChildren(tail, 0, |children|));
    ChildrenRoundTrip(n.nodes, tail, 0, |children|, rest);
    assert DecodeChildren(tail, 0, |children|) == Some(n.nodes);
    AssembleNode(n, |children|);
    assert Decode(record + rest) == Some((n, |record|));
  }

  /** Decoding a record followed by any bytes reads its fields and runs the
      children loop over the bytes after them. */
  lemma DecodeRecord(name: seq<byte>, v1: Bits32, v2: Bits32, children: seq<byte>, rest: seq<byte>)
    requires FitsI32(|name|) && FitsI32(|children|)
    ensures Decode(Record(name, v1, v2, children) + rest)
         == Assemble(name, v1, v2, |children|, DecodeChildren(children + rest, 0, |children|))
    ensures |Record(name, v1, v2, children)| == |name| + 16 + |children|
  {
    RecordFollowedBy(name, v1, v2, children, rest);
    DecodeFields(name, v1, v2, |children|, children + rest);
  }

  lemma AssembleNode(n: Node, lenChilds: int)
    ensures Assemble(n.name, n.value1, n.value2, lenChilds, Some(n.nodes)) == Some((n, |n.name| + 16 + lenChilds))
  {
  }

  lemma RecordFollowedBy(name: seq<byte>, v1: Bits32, v2: Bits32, children: seq<byte>, rest: seq<byte>)
    requires FitsI32(|name|) && FitsI32(|children|)
    ensures Record(name, v1, v2, children) + rest
         == PackI32(|name|) + (name + (PackBE32(v1) + (PackBE32(v2) + (PackI32(|children|) + (children + rest)))))
    ensures |Record(name, v1, v2, children)| == |name| + 16 + |children|
  {
  }

  /** s from position i on is a followed by b: a sits at i .. i + |a|. */
  lemma Split(s: seq<byte>, i: nat, a: seq<byte>, b: seq<byte>)
    requires i <= |s| && s[i..] == a + b
    ensures i + |a| <= |s| && s[i..i + |a|] == a && s[i + |a|..] == b
  {
    assert forall k :: 0 <= k < |a| ==> s[i..i + |a|][k] == s[i..][k];
  }

  /** Where from_binary finds the fields of a record. */
  lemma RecordFields(name: seq<byte>, v1: Bits32, v2: Bits32, lenChilds: int, tail: seq<byte>)
    requires FitsI32(|name|) && FitsI32(lenChilds)
    ensures var data := PackI32(|name|) + (name + (PackBE32(v1) + (PackBE32(v2) + (PackI32(lenChilds) + tail))));
            var lenName := |name|;
            |data| >= 4 && UnpackI32(data[..4]) == lenName && |data| >= lenName + 16
            && data[4..4 + lenName] == name
            && UnpackBE32(data[4 + lenName..lenName + 8]) == v1
            && UnpackBE32(data[lenName + 8..lenName + 12]) == v2
            && UnpackI32(data[lenName + 12..lenName + 16]) == lenChilds
            && data[lenName + 16..] == tail
  {
    var r4 := PackI32(lenChilds) + tail;
    var r3 := PackBE32(v2) + r4;
    var r2 := PackBE32(v1) + r3;
    var r1 := name + r2;
    var data := PackI32(|name|) + r1;
    var lenName := |name|;
    assert data[0..] == data;
    Split(data, 0, PackI32(lenName), r1);
    Split(data, 4, name, r2);
    Split(data, 4 + lenName, PackBE32(v1), r3);
    Split(data, 8 + lenName, PackBE32(v2), r4);
    Split(data, 12 + lenName, PackI32(lenChilds), tail);
    assert data[..4] == data[0..4];
    UnpackPackI32(lenName);
    UnpackPackBE32(v1);
    UnpackPackBE32(v2);
    UnpackPackI32(lenChilds);
  }

  /** How from_binary reads a record whose children data is followed by
      tail. */
  lemma DecodeFields(name: seq<byte>, v1: Bits32, v2: Bits32, lenChilds: int, tail: seq<byte>)
    requires FitsI32(|name|) && FitsI32(lenChilds)
    ensures Decode(PackI32(|name|) + (name + (PackBE32(v1) + (PackBE32(v2) + (PackI32(lenChilds) + tail)))))
            == Assemble(name, v1, v2, lenChilds, DecodeChildren(tail, 0, lenChilds))
  {
    var data := PackI32(|name|) + (name + (PackBE32(v1) + (PackBE32(v2) + (PackI32(lenChilds) + tail))));
    RecordFields(name, v1, v2, lenChilds, tail);
    DecodeParsed(data, name, v1, v2, lenChilds, tail);
  }

  /** Decode on a buffer whose fields have been located. */
  lemma DecodeParsed(data: seq<byte>, name: seq<byte>, v1: Bits32, v2: Bits32, lenChilds: int, tail: seq<byte>)
    requires |data| >= 4 && UnpackI32(data[..4]) == |name| && |data| >= |name| + 16
    requires data[4..4 + |name|] == name
    requires UnpackBE32(data[4 + |name|..|name| + 8]) == v1
    requires UnpackBE32(data[|name| + 8..|name| + 12]) == v2
    requires UnpackI32(data[|name| + 12..|name| + 16]) == lenChilds
    requires data[|name| + 16..] == tail
    ensures Decode(data) == Assemble(name, v1, v2, lenChilds, DecodeChildren(tail, 0, lenChilds))
  {
  }

  /** One turn of the children loop: a child that fails to decode or
      reports a size that is not positive stops it; otherwise the child is
      followed by the children after it. */
  lemma DecodeChildrenStep(dataChilds: seq<byte>, cursor: nat, lenChilds: int, child: Option<(Node, int)>)
    requires cursor < lenChilds
    requires child == Decode(if cursor <= |dataChilds| then dataChilds[cursor..] else [])
    ensures child.None? || child.value.1 <= 0 ==> DecodeChildren(dataChilds, cursor, lenChilds).None?
    ensures child.Some? && child.value.1 > 0 ==>
              DecodeChildren(dataChilds, cursor, lenChilds)
              == Prepend([child.value.0], DecodeChildren(dataChilds, cursor + child.value.1, lenChilds))
  {
  }

  /** The children loop, with the encodings of the nodes `todo` at the
      cursor and len_childs at their end, reads those nodes back. */
  lemma {:induction false} ChildrenRoundTrip(todo: seq<Node>, buf: seq<byte>, cursor: nat, lenChilds: int, after: seq<byte>)
    requires EncodeAll(todo).Some? && lenChilds == cursor + |EncodeAll(todo).value|
    requires cursor <= |buf| && buf[cursor..] == EncodeAll(todo).value + after
    ensures DecodeChildren(buf, cursor, lenChilds) == Some(todo)
    decreases todo, 2
  {
    if todo != [] {
      EncodeAllCons(todo);
      var first := Encode(todo[0]).value;
      var later := EncodeAll(todo[1..]).value;
      assert buf[cursor..] == first + (later + after);
      NextChild(buf, cursor, lenChilds, todo[0], first, later + after);
      Split(buf, cursor, first, later + after);
      ChildrenRoundTrip(todo[1..], buf, cursor + |first|, lenChilds, after);
      ChildrenCons(buf, cursor, lenChilds, todo[0], |first|, todo[1..]);
      assert [todo[0]] + todo[1..] == todo;
    }
  }

  lemma ChildrenCons(buf: seq<byte>, cursor: nat, lenChilds: int, node: Node, size: nat, others: seq<Node>)
    requires DecodeChildren(buf, cursor, lenChilds) == Prepend([node], DecodeChildren(buf, cursor + size, lenChilds))
    requires DecodeChildren(buf, cursor + size, lenChilds) == Some(others)
    ensures DecodeChildren(buf, cursor, lenChilds) == Some([node] + others)
  {
  }

  lemma EncodeAllCons(ns: seq<Node>)
    requires ns != [] && EncodeAll(ns).Some?
    ensures Encode(ns[0]).Some? && EncodeAll(ns[1..]).Some?
    ensures EncodeAll(ns).value == Encode(ns[0]).value + EncodeAll(ns[1..]).value
  {
  }

  /** The children loop reads back a node whose encoding starts at the
      cursor. */
  lemma NextChild(buf: seq<byte>, cursor: nat, lenChilds: int, node: Node, first: seq<byte>, after: seq<byte>)
    requires cursor + |first| <= lenChilds && cursor <= |buf| && buf[cursor..] == first + after
    requires Encode(node) == Some(first)
    ensures DecodeChildren(buf, cursor, lenChilds) == Prepend([node], DecodeChildren(buf, cursor + |first|, lenChilds))
    decreases node, 1
  {
    EncodedSize(node);
    BinaryRoundTrip(node, after);
    DecodeChildrenStep(buf, cursor, lenChilds, Some((node, |first|)));
  }

  /** The tree of the module-level demo: A with children B and C, D under
      B and E under D, values 1.5/2.5 ... 5.5/6.5 as float32 patterns. */
  function Demo(): Node
  {
    var e := NewNode(['E' as int], 0x40B0_0000, 0x40D0_0000);
    var d := AddNode(NewNode(['D' as int], 0x4090_0000, 0x40B0_0000), e);
    var c := NewNode(['C' as int], 0x4060_0000, 0x4090_0000);
    var b := AddNode(NewNode(['B' as int], 0x4020_0000, 0x4060_0000), d);
    AddNode(AddNode(NewNode(['A' as int], 0x3FC0_0000, 0x4020_0000), b), c)
  }

  /** A tree whose whole encoding fits the pack("i") range can be encoded. */
  lemma {:induction false} EncodeDefined(n: Node)
    requires 16 * Count(n) + NameBytes(n) <= I32_MAX
    ensures Encode(n).Some?
    decreases n, 1
  {
    EncodeAllDefined(n.nodes);
    EncodedSizeAll(n.nodes);
  }

  lemma {:induction false} EncodeAllDefined(ns: seq<Node>)
    requires 16 * CountAll(ns) + NameBytesAll(ns) <= I32_MAX
    ensures EncodeAll(ns).Some?
    decreases ns, 0
  {
    if ns != [] {
      EncodeDefined(ns[0]);
      EncodeAllDefined(ns[1..]);
    }
  }

  lemma DemoSize()
    ensures Count(Demo()) == 5 && NameBytes(Demo()) == 5
  {
    var e := NewNode(['E' as int], 0x40B0_0000, 0x40D0_0000);
    var d := AddNode(NewNode(['D' as int], 0x4090_0000, 0x40B0_0000), e);
    var c := NewNode(['C' as int], 0x4060_0000, 0x4090_0000);
    var b := AddNode(NewNode(['B' as int], 0x4020_0000, 0x4060_0000), d);
    assert Count(e) == 1 && NameBytes(e) == 1;
    assert Count(d) == 2 && NameBytes(d) == 2 by {
      assert d.nodes == [e] && d.nodes[1..] == [];
    }
    assert Count(c) == 1 && NameBytes(c) == 1;
    assert Count(b) == 3 && NameBytes(b) == 3 by {
      assert b.nodes == [d] && b.nodes[1..] == [];
    }
    var a := Demo();
    assert a.nodes == [b, c] && a.nodes[1..] == [c] && a.nodes[1..][1..] == [];
  }

  /** The demo encodes to 85 bytes (five 17-byte records) and decodes back to
      the same tree with 85 as the consumed size. */
  lemma DemoBinaryRoundTrip()
    ensures Encode(Demo()).Some? && |Encode(Demo()).value| == 85
    ensures Decode(Encode(Demo()).value) == Some((Demo(), 85))
  {
    DemoSize();
    EncodeDefined(Demo());
    EncodedSize(Demo());
    BinaryRoundTrip(Demo(), []);
    assert Encode(Demo()).value + [] == Encode(Demo()).value;
  }
}
