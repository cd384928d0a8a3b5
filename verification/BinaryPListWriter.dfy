/** The writing half of CFBinaryPList.c: buffered sink, object flattening, serialisation. */
module PlistWriter {
  import opened Bytes
  import opened PlistModel

  const MARKER_FALSE: u8 := 0x08
  const MARKER_TRUE: u8 := 0x09
  const MARKER_INT: u8 := 0x10
  const MARKER_REAL: u8 := 0x20
  const MARKER_DATE: u8 := 0x33
  const MARKER_DATA: u8 := 0x40
  const MARKER_ASCII: u8 := 0x50
  const MARKER_UTF16: u8 := 0x60
  const MARKER_UID: u8 := 0x80
  const MARKER_ARRAY: u8 := 0xA0
  const MARKER_DICT: u8 := 0xD0

  const BUFFER_SIZE := 8192 - 32
  const TRAILER_SIZE := 32
  const HEADER: seq<u8> := [0x62, 0x70, 0x6C, 0x69, 0x73, 0x74, 0x30, 0x30]  // "bplist00"

  // ------------------------------------------------------------ buffered sink

  /** A CFMutableData, or a write stream whose answers the environment decides. */
  class Stream {
    var bytes: seq<u8>
    var answers: seq<int>  // what the coming write calls return; all of the chunk once exhausted

    ghost var refusals: nat  // how many write calls took nothing

    method Write(chunk: seq<u8>) returns (ret: int)
      requires chunk != []
      modifies this
      ensures refusals == old(refusals) + if ret <= 0 then 1 else 0
      ensures ret <= |chunk|
      ensures bytes == old(bytes) + if ret > 0 then chunk[..ret] else []
    {
      if answers == [] {
        ret := |chunk|;
      } else {
        ret := if answers[0] < |chunk| then answers[0] else |chunk|;
        answers := answers[1..];
      }
      if ret > 0 {
        bytes := bytes + chunk[..ret];
      } else {
        refusals := refusals + 1;
      }
    }
  }

  class WriteBuffer {
    const stream: Stream
    const streamIsData: bool
    var error: bool
    var written: nat
    var used: nat
    const buffer: array<u8>
    ghost const before: seq<u8>    // what the stream held when the buffer was set up
    ghost const refusalsBefore: nat
    ghost var intended: seq<u8>    // every byte string handed to BufferWrite, concatenated

    /** What reached the stream is a prefix of what was asked for, and nothing is missing but
        the buffered bytes as long as no error occurred. */
    ghost predicate Valid()
      reads this, stream, buffer
    {
      Books() && used < BUFFER_SIZE
    }

    ghost predicate Books()
      reads this, stream, buffer
    {
      && buffer.Length == BUFFER_SIZE
      && used <= BUFFER_SIZE
      && before <= stream.bytes
      && |before| + written == |stream.bytes|
      && written + used <= |intended|
      && (streamIsData ==> !error)
      && stream.refusals == refusalsBefore + (if error then 1 else 0)
      && Accounts(stream.bytes[|before|..], buffer[..used], intended, error)
    }

    static ghost predicate Accounts(sent: seq<u8>, held: seq<u8>, intended: seq<u8>, error: bool) {
      sent <= intended && (!error ==> sent + held == intended)
    }

    /** Sending the held bytes, or more, keeps the books straight. */
    static lemma Sent(sent: seq<u8>, held: seq<u8>, intended: seq<u8>, more: seq<u8>, error: bool,
                      sent': seq<u8>, held': seq<u8>, error': bool)
      requires Accounts(sent, held, intended, error)
      requires error ==> error' && sent' == sent
      requires !error ==> sent' <= sent + (held + more)
      requires !error' ==> sent' + held' == sent + (held + more)
      ensures Accounts(sent', held', intended + more, error')
    {
      if !error {
        assert sent + (held + more) == (sent + held) + more == intended + more;
      }
    }

    constructor (stream: Stream, streamIsData: bool)
      ensures this.streamIsData == streamIsData
      ensures Valid() && !error && intended == [] && fresh(buffer)
      ensures this.stream == stream && before == stream.bytes && refusalsBefore == stream.refusals
    {
      this.stream := stream;
      this.streamIsData := streamIsData;
      error, written, used := false, 0, 0;
      buffer := new u8[BUFFER_SIZE](_ => 0);
      before, refusalsBefore, intended := stream.bytes, stream.refusals, [];
    }

    /** `written + used` is the position in the output at which the next byte will land. */
    method Position() returns (offset: nat)
      requires Valid()
      ensures offset == written + used <= |intended|
      ensures !error ==> offset == |intended|
    {
      offset := written + used;
    }

    /** Sends bytes straight to the stream; on failure a prefix of them was sent. */
    method WriteBytes(bytes: seq<u8>)
      modifies this`error, this`written, stream
      ensures old(error) ==> error && stream.bytes == old(stream.bytes)
      ensures streamIsData ==> error == old(error)
      ensures stream.refusals == old(stream.refusals) + if error && !old(error) then 1 else 0
      ensures old(stream.bytes) <= stream.bytes <= old(stream.bytes) + bytes
      ensures |stream.bytes| - |old(stream.bytes)| == written - old(written)
      ensures !error ==> stream.bytes == old(stream.bytes) + bytes
    {
      if |bytes| == 0 {
        return;
      }
      if error {
        return;
      }
      if streamIsData {
        stream.bytes := stream.bytes + bytes;
        written := written + |bytes|;
      } else {
        var rest := bytes;
        ghost var sent := [];
        while 0 < |rest|
          invariant !error && bytes == sent + rest
          invariant stream.refusals == old(stream.refusals)
          invariant stream.bytes == old(stream.bytes) + sent
          invariant written == old(written) + |sent|
          decreases |rest|
        {
          var ret := stream.Write(rest);
          if ret <= 0 {
            error := true;
            return;
          }
          sent := sent + rest[..ret];
          written := written + ret;
          rest := rest[ret..];
        }
      }
    }

    method BufferFlush()
      requires Books()
      modifies this, stream
      ensures Valid() && intended == old(intended) && used == 0
      ensures old(error) ==> error && stream.bytes == old(stream.bytes)
      ensures !error ==> stream.bytes[|before|..] == intended
    {
      ghost var sent, held := stream.bytes[|before|..], buffer[..used];
      WriteBytes(buffer[..used]);
      used := 0;
      assert held + [] == held && intended + [] == intended;
      Sent(sent, held, intended, [], old(error), stream.bytes[|before|..], [], error);
    }

    /** All that a caller sees: the bytes are appended to the intended output. */
    method BufferWrite(bytes: seq<u8>)
      requires Valid()
      modifies this, stream, buffer
      ensures Valid() && intended == old(intended) + bytes
      ensures old(error) ==> error
    {
      if |bytes| == 0 {
        return;
      }
      if BUFFER_SIZE <= |bytes| {
        BufferFlush();
        WriteThrough(bytes);
        return;
      }
      var copyLen := if |bytes| < BUFFER_SIZE - used then |bytes| else BUFFER_SIZE - used;
      Fill(bytes[..copyLen]);
      if BUFFER_SIZE == used {
        BufferFlush();
        Fill(bytes[copyLen..]);
      }
      assert bytes == bytes[..copyLen] + bytes[copyLen..];
    }

    method WriteThrough(bytes: seq<u8>)
      requires Valid() && used == 0
      modifies this, stream
      ensures Valid() && intended == old(intended) + bytes && used == 0
      ensures old(error) ==> error
    {
      ghost var sent := stream.bytes[|before|..];
      WriteBytes(bytes);
      assert [] + bytes == bytes && bytes + [] == bytes;
      Sent(sent, [], intended, bytes, old(error), stream.bytes[|before|..], [], error);
      intended := intended + bytes;
    }

    /** Moves bytes that fit to the end of the used part of the buffer. */
    method Fill(bytes: seq<u8>)
      requires Books() && used + |bytes| <= BUFFER_SIZE
      modifies this`used, this`intended, buffer
      ensures Books() && intended == old(intended) + bytes
      ensures used == old(used) + |bytes|
    {
      ghost var sent, held := stream.bytes[|before|..], buffer[..used];
      forall i | 0 <= i < |bytes| {
        buffer[used + i] := bytes[i];
      }
      used := used + |bytes|;
      assert buffer[..used] == held + bytes;
      Sent(sent, held, intended, bytes, error, stream.bytes[|before|..], buffer[..used], error);
      intended := intended + bytes;
    }
  }

  // ------------------------------------------------------- forms of an object

  /** log2 of the width the writer picks for an integer, and that width. */
  function IntLog(v: u64): u8 {
    if v <= 0xFF then 0 else if v <= 0xFFFF then 1 else if v <= 0xFFFF_FFFF then 2 else 3
  }

  function IntWidth(v: u64): nat {
    if v <= 0xFF then 1 else if v <= 0xFFFF then 2 else if v <= 0xFFFF_FFFF then 4 else 8
  }

  function EncodeInt(v: u64): seq<u8> {
    [MARKER_INT + IntLog(v)] + ToBigEndian(v, IntWidth(v))
  }

  /** A marker whose low nibble is a count below 15, else 15 and the count as an integer. */
  function EncodeCount(marker: u8, count: u64): seq<u8>
    requires marker <= 0xF0
  {
    if count < 15 then [marker + count] else [marker + 15] + EncodeInt(count)
  }

  function EncodeUnits(chars: seq<u16>): (s: seq<u8>)
    ensures |s| == 2 * |chars|
  {
    if chars == [] then [] else ToBigEndian(chars[0], 2) + EncodeUnits(chars[1..])
  }

  predicate IsAscii(chars: seq<u16>) {
    forall i :: 0 <= i < |chars| ==> chars[i] < 0x80
  }

  function EncodeString(chars: seq<u16>): seq<u8>
    requires |chars| < TWO_63
  {
    if IsAscii(chars) then
      EncodeCount(MARKER_ASCII, |chars|) + seq(|chars|, i requires 0 <= i < |chars| => chars[i])
    else
      EncodeCount(MARKER_UTF16, |chars|) + EncodeUnits(chars)
  }

  /** CFDictionaryGetValue on the object table: a missing object reads as 0. */
  function Reference(table: map<nat, nat>, x: nat): nat {
    if x in table then table[x] else 0
  }

  function EncodeRefs(xs: seq<nat>, table: map<nat, nat>, refSize: nat): (s: seq<u8>)
    ensures |s| == |xs| * refSize
  {
    if xs == [] then [] else ToBigEndian(Reference(table, xs[0]), refSize) + EncodeRefs(xs[1..], table, refSize)
  }

  /** The bytes of one object; containers refer to their children by object number. */
  function EncodeNode(n: Node, table: map<nat, nat>, refSize: nat): (s: seq<u8>)
    requires n.WellFormed()
    ensures !n.OtherNode? ==> s != []
  {
    match n
    case StringNode(chars) => EncodeString(chars)
    case IntNode(v) => EncodeInt(Unsigned64(v))
    case RealNode(bits) => [MARKER_REAL + (if |bits| == 4 then 2 else 3)] + bits
    case BoolNode(b) => [if b then MARKER_TRUE else MARKER_FALSE]
    case DateNode(bits) => [MARKER_DATE] + bits
    case DataNode(bytes) => EncodeCount(MARKER_DATA, |bytes|) + bytes
    case UidNode(v) => [MARKER_UID + IntWidth(v) - 1] + ToBigEndian(v, IntWidth(v))
    case ArrayNode(items) => EncodeCount(MARKER_ARRAY, |items|) + EncodeRefs(items, table, refSize)
    case DictNode(keys, vals) => EncodeCount(MARKER_DICT, |keys|) + EncodeRefs(keys + vals, table, refSize)
    case OtherNode => []
  }

  // ----------------------------------------------------------- append methods

  method AppendInt(buf: WriteBuffer, v: u64)
    requires buf.Valid()
    modifies buf, buf.stream, buf.buffer
    ensures buf.Valid() && buf.intended == old(buf.intended) + EncodeInt(v)
    ensures old(buf.error) ==> buf.error
  {
    hide WriteBuffer.Valid, ToBigEndian;
    var nbytes, marker;
    if v <= 0xFF {
      nbytes, marker := 1, MARKER_INT + 0;
    } else if v <= 0xFFFF {
      nbytes, marker := 2, MARKER_INT + 1;
    } else if v <= 0xFFFF_FFFF {
      nbytes, marker := 4, MARKER_INT + 2;
    } else {
      nbytes, marker := 8, MARKER_INT + 3;
    }
    var bigint := ToBigEndian(v, 8);
    BigEndianTail(v, 8, nbytes);
    Concat3(buf.intended, [marker], bigint[8 - nbytes..]);
    buf.BufferWrite([marker]);
    buf.BufferWrite(bigint[8 - nbytes..]);
  }

  method AppendUID(buf: WriteBuffer, v: u32)
    requires buf.Valid()
    modifies buf, buf.stream, buf.buffer
    ensures buf.Valid() && buf.intended == old(buf.intended) + EncodeNode(UidNode(v), map[], 0)
    ensures old(buf.error) ==> buf.error
  {
    hide WriteBuffer.Valid, ToBigEndian;
    var nbytes;
    if v <= 0xFF {
      nbytes := 1;
    } else if v <= 0xFFFF {
      nbytes := 2;
    } else if v <= 0xFFFF_FFFF {
      nbytes := 4;
    } else {
      nbytes := 8;
    }
    var bigint := ToBigEndian(v, 8);
    BigEndianTail(v, 8, nbytes);
    buf.BufferWrite([MARKER_UID + nbytes - 1]);
    buf.BufferWrite(bigint[8 - nbytes..]);
  }

  method AppendCount(buf: WriteBuffer, marker: u8, count: u64)
    requires buf.Valid() && marker <= 0xF0
    modifies buf, buf.stream, buf.buffer
    ensures buf.Valid() && buf.intended == old(buf.intended) + EncodeCount(marker, count)
    ensures old(buf.error) ==> buf.error
  {
    var first: seq<u8> := [marker + (if count < 15 then count else 0xF)];
    buf.BufferWrite(first);
    if 15 <= count {
      AppendInt(buf, count);
      Concat3(old(buf.intended), first, EncodeInt(count));
    }
  }

  lemma Concat3(a: seq<u8>, b: seq<u8>, c: seq<u8>)
    ensures a + b + c == a + (b + c)
  {
  }

  /** Every unit in big-endian byte order. */
  method SwapUnits(chars: seq<u16>) returns (swapped: seq<u8>)
    ensures swapped == EncodeUnits(chars)
  {
    swapped := [];
    for i := 0 to |chars|
      invariant swapped + EncodeUnits(chars[i..]) == EncodeUnits(chars)
    {
      assert chars[i..][1..] == chars[i + 1..];
      Concat3(swapped, ToBigEndian(chars[i], 2), EncodeUnits(chars[i + 1..]));
      swapped := swapped + ToBigEndian(chars[i], 2);
    }
  }

  method AppendString(buf: WriteBuffer, chars: seq<u16>)
    requires buf.Valid() && |chars| < TWO_63
    modifies buf, buf.stream, buf.buffer
    ensures buf.Valid() && buf.intended == old(buf.intended) + EncodeString(chars)
    ensures old(buf.error) ==> buf.error
  {
    if IsAscii(chars) {
      var bytes: seq<u8> := seq(|chars|, i requires 0 <= i < |chars| => chars[i]);
      AppendCount(buf, MARKER_ASCII, |chars|);
      buf.BufferWrite(bytes);
      Concat3(old(buf.intended), EncodeCount(MARKER_ASCII, |chars|), bytes);
    } else {
      AppendCount(buf, MARKER_UTF16, |chars|);
      var swapped := SwapUnits(chars);
      buf.BufferWrite(swapped);
      Concat3(old(buf.intended), EncodeCount(MARKER_UTF16, |chars|), swapped);
    }
  }

  /** Writes the object number of every child, `refSize` bytes each. */
  method AppendRefs(buf: WriteBuffer, list: seq<nat>, objtable: map<nat, nat>, refSize: nat)
    requires buf.Valid() && refSize <= 4
    modifies buf, buf.stream, buf.buffer
    ensures buf.Valid() && buf.intended == old(buf.intended) + EncodeRefs(list, objtable, refSize)
    ensures old(buf.error) ==> buf.error
  {
    hide WriteBuffer.Valid, ToBigEndian, Reference;
    for idx := 0 to |list|
      invariant buf.Valid() && (old(buf.error) ==> buf.error)
      invariant buf.intended + EncodeRefs(list[idx..], objtable, refSize)
             == old(buf.intended) + EncodeRefs(list, objtable, refSize)
    {
      var refnum := Reference(objtable, list[idx]);
      var swapped := ToBigEndian(refnum, 4);
      BigEndianTail(refnum, 4, refSize);
      assert list[idx..][1..] == list[idx + 1..];
      Concat3(buf.intended, ToBigEndian(refnum, refSize), EncodeRefs(list[idx + 1..], objtable, refSize));
      buf.BufferWrite(swapped[4 - refSize..]);
    }
  }

  /** A marker byte followed by the bytes of a real or a date. */
  method AppendBits(buf: WriteBuffer, marker: u8, bits: seq<u8>)
    requires buf.Valid()
    modifies buf, buf.stream, buf.buffer
    ensures buf.Valid() && buf.intended == old(buf.intended) + ([marker] + bits)
    ensures old(buf.error) ==> buf.error
  {
    buf.BufferWrite([marker]);
    buf.BufferWrite(bits);
    Concat3(old(buf.intended), [marker], bits);
  }

  method AppendData(buf: WriteBuffer, bytes: seq<u8>)
    requires buf.Valid() && |bytes| < TWO_63
    modifies buf, buf.stream, buf.buffer
    ensures buf.Valid() && buf.intended == old(buf.intended) + (EncodeCount(MARKER_DATA, |bytes|) + bytes)
    ensures old(buf.error) ==> buf.error
  {
    AppendCount(buf, MARKER_DATA, |bytes|);
    buf.BufferWrite(bytes);
    Concat3(old(buf.intended), EncodeCount(MARKER_DATA, |bytes|), bytes);
  }

  method AppendContainer(buf: WriteBuffer, marker: u8, count: u64, list: seq<nat>, objtable: map<nat, nat>, refSize: nat)
    requires buf.Valid() && refSize <= 4 && marker <= 0xF0
    modifies buf, buf.stream, buf.buffer
    ensures buf.Valid()
    ensures buf.intended == old(buf.intended) + (EncodeCount(marker, count) + EncodeRefs(list, objtable, refSize))
    ensures old(buf.error) ==> buf.error
  {
    AppendCount(buf, marker, count);
    AppendRefs(buf, list, objtable, refSize);
    Concat3(old(buf.intended), EncodeCount(marker, count), EncodeRefs(list, objtable, refSize));
  }

  method AppendObject(buf: WriteBuffer, obj: Node, objtable: map<nat, nat>, refSize: nat) returns (ok: bool)
    requires buf.Valid() && refSize <= 4
    requires obj.WellFormed()
    modifies buf, buf.stream, buf.buffer
    ensures buf.Valid() && ok == !obj.OtherNode?
    ensures buf.intended == old(buf.intended) + EncodeNode(obj, objtable, refSize)
    ensures old(buf.error) ==> buf.error
  {
    ok := true;
    match obj {
      case StringNode(chars) => AppendString(buf, chars);
      case IntNode(v) => AppendInt(buf, Unsigned64(v));
      case RealNode(bits) => AppendBits(buf, MARKER_REAL + (if |bits| == 4 then 2 else 3), bits);
      case BoolNode(b) => buf.BufferWrite([if b then MARKER_TRUE else MARKER_FALSE]);
      case DataNode(bytes) => AppendData(buf, bytes);
      case DateNode(bits) => AppendBits(buf, MARKER_DATE, bits);
      case DictNode(keys, vals) => AppendContainer(buf, MARKER_DICT, |keys|, keys + vals, objtable, refSize);
      case ArrayNode(items) => AppendContainer(buf, MARKER_ARRAY, |items|, items, objtable, refSize);
      case UidNode(v) => AppendUID(buf, v);
      case OtherNode => ok := false;
    }
  }

  // -------------------------------------------------------------- flattening

  /** The object list, object table and uniquing set while a graph is being flattened. */
  datatype Flat = Flat(objlist: seq<nat>, objtable: map<nat, nat>, uniquing: set<nat>) {

    /** Every table entry points at its object, and every listed object has an entry. */
    ghost predicate Consistent() {
      && (forall x :: x in objtable ==> objtable[x] < |objlist| && objlist[objtable[x]] == x)
      && (forall i :: 0 <= i < |objlist| ==> objlist[i] in objtable)
      && uniquing <= objtable.Keys
    }

    /** `later` extends `this`: nothing listed moves and no entry changes. */
    ghost predicate GrowsTo(later: Flat) {
      && objlist <= later.objlist
      && forall x :: x in objtable ==> x in later.objtable && later.objtable[x] == objtable[x]
    }

    /** Objects listed from `from` on are nodes of the graph whose children all have entries. */
    ghost predicate ClosedFrom(g: Graph, from: nat) {
      forall i :: from <= i < |objlist| ==>
        objlist[i] < |g.nodes| && forall k :: 0 <= k < |g.nodes[objlist[i]].Kids()| ==> g.nodes[objlist[i]].Kids()[k] in objtable
    }

    /** CFDictionaryAddValue leaves an entry that is already there. */
    function Listed(x: nat, uniqued: bool): Flat {
      Flat(objlist + [x], if x in objtable then objtable else objtable[x := |objlist|],
           if uniqued then uniquing + {x} else uniquing)
    }
  }

  ghost function Flatten(g: Graph, x: nat, s: Flat): Flat
    requires g.WellFormed() && x < |g.nodes|
    decreases g.rank[x], 1, 0
  {
    if g.nodes[x].Uniqued() && x in s.uniquing then s
    else FlattenKids(g, x, 0, s.Listed(x, g.nodes[x].Uniqued()))
  }

  ghost function FlattenKids(g: Graph, x: nat, k: nat, s: Flat): Flat
    requires g.WellFormed() && x < |g.nodes| && k <= |g.nodes[x].Kids()|
    decreases g.rank[x], 0, |g.nodes[x].Kids()| - k
  {
    var kids := g.nodes[x].Kids();
    assert g.KidsBelow(x);
    if k == |kids| then s else FlattenKids(g, x, k + 1, Flatten(g, kids[k], s))
  }

  /** `b` is a sound continuation of `a`; when `writable`, it lists no unwritable object. */
  ghost predicate Extends(g: Graph, a: Flat, b: Flat, writable: bool) {
    && b.Consistent() && a.GrowsTo(b) && b.ClosedFrom(g, |a.objlist|)
    && (writable ==> forall i :: |a.objlist| <= i < |b.objlist| ==> !g.nodes[b.objlist[i]].OtherNode?)
  }

  lemma ExtendsTransitive(g: Graph, a: Flat, b: Flat, c: Flat, writable: bool)
    requires Extends(g, a, b, writable) && Extends(g, b, c, writable)
    ensures Extends(g, a, c, writable)
  {
    forall i | |a.objlist| <= i < |b.objlist|
      ensures c.objlist[i] == b.objlist[i]
    {
    }
  }

  lemma ExtendsListed(g: Graph, s: Flat, x: nat, r: Flat, writable: bool)
    requires g.WellFormed() && x < |g.nodes| && s.Consistent()
    requires Extends(g, s.Listed(x, g.nodes[x].Uniqued()), r, writable)
    requires forall j :: 0 <= j < |g.nodes[x].Kids()| ==> g.nodes[x].Kids()[j] in r.objtable
    requires writable ==> !g.nodes[x].OtherNode?
    ensures Extends(g, s, r, writable) && x in r.objtable
  {
    var s1 := s.Listed(x, g.nodes[x].Uniqued());
    assert r.objlist[|s.objlist|] == s1.objlist[|s.objlist|] == x;
  }

  /** Flattening a subgraph lists it, children included, and disturbs nothing already listed. */
  lemma {:induction false} FlattenSound(g: Graph, x: nat, s: Flat, writable: bool)
    requires g.WellFormed() && x < |g.nodes| && s.Consistent()
    requires writable ==> Writable(g, x)
    ensures Extends(g, s, Flatten(g, x, s), writable) && x in Flatten(g, x, s).objtable
    decreases g.rank[x], 1, 0
  {
    if g.nodes[x].Uniqued() && x in s.uniquing {
      assert x in s.objtable;
    } else {
      var s1 := s.Listed(x, g.nodes[x].Uniqued());
      FlattenKidsSound(g, x, 0, s1, writable);
      ExtendsListed(g, s, x, FlattenKids(g, x, 0, s1), writable);
    }
  }

  ghost predicate KidsFrom(g: Graph, x: nat, k: nat, s: Flat)
    requires x < |g.nodes|
  {
    forall j :: k <= j < |g.nodes[x].Kids()| ==> g.nodes[x].Kids()[j] in s.objtable
  }

  lemma {:induction false} FlattenKidsSound(g: Graph, x: nat, k: nat, s: Flat, writable: bool)
    requires g.WellFormed() && x < |g.nodes| && k <= |g.nodes[x].Kids()| && s.Consistent()
    requires writable ==> Writable(g, x)
    ensures Extends(g, s, FlattenKids(g, x, k, s), writable)
    ensures KidsFrom(g, x, k, FlattenKids(g, x, k, s))
    decreases g.rank[x], 0, |g.nodes[x].Kids()| - k
  {
    FlattenKidsStep(g, x, k, s);
    if k < |g.nodes[x].Kids()| {
      hide FlattenKids, Flatten, Extends, Flat.Consistent, Writable, Graph.WellFormed, Node.Kids, KidsFrom;
      var kid := g.nodes[x].Kids()[k];
      var s1 := Flatten(g, kid, s);
      if writable {
        WritableKid(g, x, k);
      }
      FlattenSound(g, kid, s, writable);
      ExtendsKeeps(g, s, s1, writable, kid);
      FlattenKidsSound(g, x, k + 1, s1, writable);
      var r := FlattenKids(g, x, k + 1, s1);
      ExtendsKeeps(g, s1, r, writable, kid);
      ExtendsTransitive(g, s, s1, r, writable);
      OneKidMore(g, x, k, r);
    } else {
      ExtendsItself(g, s, writable);
    }
  }

  lemma FlattenKidsStep(g: Graph, x: nat, k: nat, s: Flat)
    requires g.WellFormed() && x < |g.nodes| && k <= |g.nodes[x].Kids()|
    ensures if k == |g.nodes[x].Kids()| then FlattenKids(g, x, k, s) == s else
      var kid := g.nodes[x].Kids()[k];
      kid < |g.nodes| && g.rank[kid] < g.rank[x] && FlattenKids(g, x, k, s) == FlattenKids(g, x, k + 1, Flatten(g, kid, s))
  {
    assert g.KidsBelow(x);
  }

  lemma OneKidMore(g: Graph, x: nat, k: nat, s: Flat)
    requires x < |g.nodes| && k < |g.nodes[x].Kids()|
    requires g.nodes[x].Kids()[k] in s.objtable && KidsFrom(g, x, k + 1, s)
    ensures KidsFrom(g, x, k, s)
  {
    hide Node.Kids;
  }

  lemma WritableKid(g: Graph, x: nat, k: nat)
    requires g.WellFormed() && x < |g.nodes| && k < |g.nodes[x].Kids()| && Writable(g, x)
    ensures g.nodes[x].Kids()[k] < |g.nodes| && Writable(g, g.nodes[x].Kids()[k])
  {
    assert g.KidsBelow(x);
  }

  lemma ExtendsKeeps(g: Graph, a: Flat, b: Flat, writable: bool, x: nat)
    requires Extends(g, a, b, writable)
    ensures b.Consistent() && (x in a.objtable ==> x in b.objtable)
  {
  }

  lemma ExtendsItself(g: Graph, s: Flat, writable: bool)
    requires s.Consistent()
    ensures Extends(g, s, s, writable)
  {
  }

  lemma AddedOnce(s: set<nat>, x: nat)
    ensures |s + {x}| == |s| + (if x in s then 0 else 1)
    ensures x in s ==> s + {x} == s
  {
    if x in s {
      assert s + {x} == s;
    }
  }

  /** The flattening pass, updating its three collections in place. */
  class Flattener {
    var objlist: seq<nat>
    var objtable: map<nat, nat>
    var uniquingset: set<nat>

    ghost function State(): Flat
      reads this
    {
      Flat(objlist, objtable, uniquingset)
    }

    constructor ()
      ensures State() == Flat([], map[], {})
    {
      objlist, objtable, uniquingset := [], map[], {};
    }

    method FlattenPlist(g: Graph, plist: nat)
      requires g.WellFormed() && plist < |g.nodes|
      modifies this
      ensures State() == Flatten(g, plist, old(State()))
      decreases g.rank[plist]
    {
      var n := g.nodes[plist];
      if n.Uniqued() {
        var before := |uniquingset|;
        ghost var had := uniquingset;
        uniquingset := uniquingset + {plist};
        var after := |uniquingset|;
        AddedOnce(had, plist);
        if after == before {  // already in set, and the member found is this same object
          return;
        }
      }
      var refnum := |objlist|;
      objlist := objlist + [plist];
      if plist !in objtable {
        objtable := objtable[plist := refnum];
      }
      assert State() == old(State()).Listed(plist, n.Uniqued());
      assert g.KidsBelow(plist);
      var list := n.Kids();
      for idx := 0 to |list|
        invariant FlattenKids(g, plist, idx, State()) == Flatten(g, plist, old(State()))
      {
        FlattenPlist(g, list[idx]);
      }
    }
  }

  // ------------------------------------------------------------- whole files

  const EMPTY: Flat := Flat([], map[], {})

  /** The least of 1, 2, 4 and 8 bytes that holds `count`. */
  function ByteCountOf(count: u64): (size: nat)
    ensures size in {1, 2, 4, 8} && count < Pow256(size)
    ensures forall smaller :: smaller in {1, 2, 4, 8} && smaller < size ==> Pow256(smaller) <= count
  {
    Pow256Values();
    if count < 0x100 then 1 else if count < 0x1_0000 then 2 else if count < 0x1_0000_0000 then 4 else 8
  }

  method ByteCount(count: u64) returns (size: nat)
    ensures size == ByteCountOf(count)
  {
    Pow256Values();
    ghost var bytes := 0;
    size := 0;
    // the mask keeps the bits from 8 * size on
    while count / Pow256(size) != 0
      invariant size <= 8 && (size > 0 ==> Pow256(size - 1) <= count)
      decreases 8 - size
    {
      size := size + 1;
      if size == 8 {
        assert count / Pow256(8) == 0;
      }
    }
    bytes := size;
    ByteCountBounds(count, bytes);
    while size != 1 && size != 2 && size != 4 && size != 8 && size <= 8
      invariant bytes <= size <= 8
      invariant bytes == 0 ==> size <= 1
      invariant 0 < bytes <= 2 ==> size == bytes
      invariant 2 < bytes <= 4 ==> size <= 4
      decreases 9 - size
    {
      size := size + 1;
    }
  }

  /** `bytes` is the exact byte length of `count`. */
  lemma ByteCountBounds(count: u64, bytes: nat)
    requires bytes <= 8 && count / Pow256(bytes) == 0 && (bytes > 0 ==> Pow256(bytes - 1) <= count)
    ensures ByteCountOf(count) == if bytes <= 1 then 1 else if bytes == 2 then 2 else if bytes <= 4 then 4 else 8
  {
    Pow256Values();
    assert count < Pow256(bytes);
    if bytes == 0 {
      assert count == 0;
    } else if bytes == 3 {
      Pow256Monotone(3, 4);
    } else if bytes > 4 {
      Pow256Monotone(4, bytes - 1);
    }
  }

  /** The object list of a well-formed graph. */
  ghost predicate Lists(g: Graph, s: Flat) {
    g.WellFormed() && forall i :: 0 <= i < |s.objlist| ==> s.objlist[i] < |g.nodes|
  }

  ghost predicate AllWritable(g: Graph, s: Flat)
    requires Lists(g, s)
  {
    forall i :: 0 <= i < |s.objlist| ==> !g.nodes[s.objlist[i]].OtherNode?
  }

  /** The bytes of the first `i` listed objects. */
  ghost function EncodeObjects(g: Graph, s: Flat, refSize: nat, i: nat): seq<u8>
    requires Lists(g, s) && i <= |s.objlist|
  {
    if i == 0 then []
    else EncodeObjects(g, s, refSize, i - 1) + EncodeNode(g.nodes[s.objlist[i - 1]], s.objtable, refSize)
  }

  /** Where the i-th listed object starts in the file. */
  ghost function ObjectOffset(g: Graph, s: Flat, refSize: nat, i: nat): nat
    requires Lists(g, s) && i <= |s.objlist|
  {
    |HEADER| + |EncodeObjects(g, s, refSize, i)|
  }

  ghost function EncodeOffsets(g: Graph, s: Flat, refSize: nat, intSize: nat, i: nat): (r: seq<u8>)
    requires Lists(g, s) && i <= |s.objlist|
    ensures |r| == i * intSize
  {
    if i == 0 then []
    else EncodeOffsets(g, s, refSize, intSize, i - 1) + ToBigEndian(ObjectOffset(g, s, refSize, i - 1), intSize)
  }

  function EncodeTrailer(intSize: u8, refSize: u8, count: nat, tableOffset: nat): (r: seq<u8>)
    ensures |r| == TRAILER_SIZE
  {
    [0, 0, 0, 0, 0, 0, intSize, refSize] + ToBigEndian(count, 8) + ToBigEndian(0, 8) + ToBigEndian(tableOffset, 8)
  }

  /** The whole file for an object list and table. */
  ghost function EncodeFile(g: Graph, s: Flat): seq<u8>
    requires Lists(g, s) && |s.objlist| < TWO_32
    requires ObjectOffset(g, s, ByteCountOf(|s.objlist|), |s.objlist|) < TWO_64
  {
    var count := |s.objlist|;
    var refSize := ByteCountOf(count);
    var tableOffset := ObjectOffset(g, s, refSize, count);
    var intSize := ByteCountOf(tableOffset);
    HEADER + EncodeObjects(g, s, refSize, count)
      + EncodeOffsets(g, s, refSize, intSize, count) + EncodeTrailer(intSize, refSize, count, tableOffset)
  }

  /** Fewer than 2^32 objects, whose bytes have 64-bit offsets: the sizes the writer is made for. */
  ghost predicate Fits(g: Graph, s: Flat)
    requires Lists(g, s)
  {
    |s.objlist| < TWO_32 && ObjectOffset(g, s, ByteCountOf(|s.objlist|), |s.objlist|) < TWO_64
  }

  /** The object list and table the writer works from. */
  ghost function Flattened(g: Graph, top: nat): (s: Flat)
    requires g.WellFormed() && top < |g.nodes|
    ensures Lists(g, s) && Extends(g, EMPTY, s, false) && top in s.objtable
  {
    FlattenSound(g, top, EMPTY, false);
    Flatten(g, top, EMPTY)
  }

  ghost function Encode(g: Graph, top: nat): Option<seq<u8>>
    requires g.WellFormed() && top < |g.nodes| && Fits(g, Flattened(g, top))
  {
    var s := Flattened(g, top);
    if AllWritable(g, s) then Some(EncodeFile(g, s)) else None
  }

  /** Writing succeeds exactly when every object below the top is of a supported type. */
  lemma EncodeDefined(g: Graph, top: nat)
    requires g.WellFormed() && top < |g.nodes| && Fits(g, Flattened(g, top))
    ensures Encode(g, top).Some? <==> Writable(g, top)
  {
    var s := Flattened(g, top);
    FlattenSound(g, top, EMPTY, Writable(g, top));
    if AllWritable(g, s) {
      ListedWritable(g, s, top);
    }
  }

  lemma {:induction false} ListedWritable(g: Graph, s: Flat, x: nat)
    requires Lists(g, s) && s.Consistent() && s.ClosedFrom(g, 0) && AllWritable(g, s)
    requires x < |g.nodes| && x in s.objtable
    ensures Writable(g, x)
    decreases g.rank[x]
  {
    var n := g.nodes[x];
    assert s.objlist[s.objtable[x]] == x;
    assert g.KidsBelow(x);
    forall k | 0 <= k < |n.Kids()|
      ensures Writable(g, n.Kids()[k])
    {
      ListedWritable(g, s, n.Kids()[k]);
    }
  }

  lemma ListedNode(g: Graph, s: Flat, i: nat)
    requires Lists(g, s) && i < |s.objlist|
    ensures s.objlist[i] < |g.nodes| && g.nodes[s.objlist[i]].WellFormed()
  {
  }

  /** Serialises the listed objects in order, noting where each starts. */
  method WriteObjects(g: Graph, objlist: seq<nat>, objtable: map<nat, nat>, ghost s: Flat,
                      buf: WriteBuffer, offsets: array<nat>, refSize: nat) returns (ok: bool)
    requires Lists(g, s) && s.objlist == objlist && s.objtable == objtable
    requires buf.Valid() && buf.intended == HEADER && refSize <= 4 && offsets.Length == |objlist|
    requires offsets as object != buf.buffer
    modifies buf, buf.stream, buf.buffer, offsets
    ensures buf.Valid() && (ok <==> AllWritable(g, s))
    ensures ok ==> buf.intended == HEADER + EncodeObjects(g, s, refSize, |objlist|)
    ensures ok && !buf.error ==> forall i :: 0 <= i < |objlist| ==> offsets[i] == ObjectOffset(g, s, refSize, i)
  {
    hide EncodeNode, Reference, WriteBuffer.Valid, Graph.WellFormed, Node.WellFormed;
    for idx := 0 to |objlist|
      invariant buf.Valid()
      invariant forall i :: 0 <= i < idx ==> !g.nodes[objlist[i]].OtherNode?
      invariant buf.intended == HEADER + EncodeObjects(g, s, refSize, idx)
      invariant !buf.error ==> forall i :: 0 <= i < idx ==> offsets[i] == ObjectOffset(g, s, refSize, i)
    {
      ListedNode(g, s, idx);
      offsets[idx] := buf.Position();
      var success := AppendObject(buf, g.nodes[objlist[idx]], objtable, refSize);
      if !success {
        return false;
      }
      Concat3(HEADER, EncodeObjects(g, s, refSize, idx), EncodeNode(g.nodes[objlist[idx]], objtable, refSize));
    }
    return true;
  }

  /** Appends the offset table. */
  method WriteOffsets(g: Graph, ghost s: Flat, ghost refSize: nat, buf: WriteBuffer, offsets: array<nat>, intSize: nat)
    requires Lists(g, s) && buf.Valid() && intSize <= 8 && offsets.Length == |s.objlist|
    requires offsets as object != buf.buffer
    requires !buf.error ==> forall i :: 0 <= i < offsets.Length ==> offsets[i] == ObjectOffset(g, s, refSize, i)
    modifies buf, buf.stream, buf.buffer
    ensures buf.Valid() && (old(buf.error) ==> buf.error)
    ensures !buf.error ==> buf.intended == old(buf.intended) + EncodeOffsets(g, s, refSize, intSize, |s.objlist|)
  {
    hide WriteBuffer.Valid, ToBigEndian, ObjectOffset, Lists;
    for idx := 0 to offsets.Length
      invariant buf.Valid() && (old(buf.error) ==> buf.error)
      invariant !buf.error ==> buf.intended == old(buf.intended) + EncodeOffsets(g, s, refSize, intSize, idx)
    {
      var swapped := ToBigEndian(offsets[idx], 8);
      BigEndianTail(offsets[idx], 8, intSize);
      Concat3(old(buf.intended), EncodeOffsets(g, s, refSize, intSize, idx), ToBigEndian(offsets[idx], intSize));
      buf.BufferWrite(swapped[8 - intSize..]);
    }
  }

  /** Everything after the objects: offset table, trailer, and the last flush. */
  method WriteTables(g: Graph, ghost s: Flat, cnt: nat, refSize: nat, buf: WriteBuffer, offsets: array<nat>)
      returns (length: nat)
    requires Lists(g, s) && Fits(g, s) && cnt == |s.objlist| == offsets.Length && refSize == ByteCountOf(cnt)
    requires buf.Valid() && buf.intended == HEADER + EncodeObjects(g, s, refSize, cnt)
    requires offsets as object != buf.buffer
    requires !buf.error ==> forall i :: 0 <= i < cnt ==> offsets[i] == ObjectOffset(g, s, refSize, i)
    modifies buf, buf.stream, buf.buffer
    ensures buf.Valid()
    ensures !buf.error ==> buf.stream.bytes == buf.before + EncodeFile(g, s) && length == |EncodeFile(g, s)|
  {
    hide EncodeObjects, EncodeOffsets, EncodeTrailer, ByteCountOf, Lists, WriteBuffer.Accounts;
    var tableOffset := buf.Position();
    var intSize := ByteCount(tableOffset);
    WriteOffsets(g, s, refSize, buf, offsets, intSize);
    length := tableOffset + cnt * intSize;
    buf.BufferWrite(EncodeTrailer(intSize, refSize, cnt, tableOffset));
    assert !buf.error ==> buf.intended == EncodeFile(g, s);
    buf.BufferFlush();
    length := length + TRAILER_SIZE;
  }

  lemma FlattenedIs(g: Graph, top: nat)
    requires g.WellFormed() && top < |g.nodes|
    ensures Flattened(g, top) == Flatten(g, top, EMPTY)
  {
  }

  lemma BufferTells(buf: WriteBuffer)
    requires buf.Valid()
    ensures buf.before <= buf.stream.bytes && (buf.streamIsData ==> !buf.error)
    ensures buf.stream.refusals == buf.refusalsBefore + if buf.error then 1 else 0
  {
  }

  lemma SomeBytes(g: Graph, s: Flat)
    requires Lists(g, s) && Fits(g, s)
    ensures |EncodeFile(g, s)| > 0
  {
    hide EncodeObjects, EncodeOffsets, EncodeTrailer;
  }

  /** __CFBinaryPlistWrite: the number of bytes written, or 0 on failure. */
  method Write(g: Graph, plist: nat, stream: Stream, streamIsData: bool) returns (length: nat)
    requires g.WellFormed() && plist < |g.nodes| && Fits(g, Flattened(g, plist))
    modifies stream
    ensures length > 0 ==>
      && Encode(g, plist).Some? && length == |Encode(g, plist).value|
      && stream.bytes == old(stream.bytes) + Encode(g, plist).value
    ensures old(stream.bytes) <= stream.bytes
    ensures length > 0 <==> Encode(g, plist).Some? && stream.refusals == old(stream.refusals)
    ensures streamIsData ==> stream.refusals == old(stream.refusals)
  {
    hide EncodeFile, EncodeObjects, ObjectOffset, AllWritable, Lists, WriteBuffer.Valid, ByteCountOf, Flattened, Flatten;
    hide Graph.WellFormed, WriteBuffer.Accounts;
    var f := new Flattener();
    f.FlattenPlist(g, plist);
    FlattenedIs(g, plist);
    ghost var s := Flattened(g, plist);
    var cnt := |f.objlist|;
    var offsets := new nat[cnt](_ => 0);
    var buf := new WriteBuffer(stream, streamIsData);
    buf.BufferWrite(HEADER);
    assert buf.intended == HEADER;
    var refSize := ByteCount(cnt);
    Pow256Values();
    var ok := WriteObjects(g, f.objlist, f.objtable, s, buf, offsets, refSize);
    BufferTells(buf);
    if !ok {
      return 0;
    }
    length := WriteTables(g, s, cnt, refSize, buf, offsets);
    BufferTells(buf);
    if buf.error {
      return 0;
    }
    SomeBytes(g, s);
  }
}
