/**
  The library calls the generated parse loops are made of. What each returns is given by the reading
  functions of Wire; what is modelled here is the state they share - position, pushed limit,
  recursion budget, and whether the last read stopped exactly at the limit - and the freedom
  ExpectTag and ExpectAtEnd have to answer false at a buffer boundary.
 */
module Stream {
  import opened Varint
  import opened Wire
  import opened Codec

  /** The payload of a length-delimited record as a limit is pushed for it. */
  datatype Delimit = Refused | Payload(bytes: seq<Byte>, rest: seq<Byte>)

  function Delimited(clamp: bool, bs: seq<Byte>): (d: Delimit)
    ensures d.Payload? ==> |d.bytes| + |d.rest| < |bs|
  {
    match ReadVarint32(bs)
    case Malformed => Refused
    case Value(n, rest) =>
      if n < TWO_31 && n <= |rest| then Payload(rest[..n], rest[n..])
      else if clamp then Payload(rest, [])
      else Refused
  }

  class CodedInputStream {
    const data: seq<Byte>
    const clamp: bool
    var pos: nat
    var limit: nat
    var depth: nat
    var legitimateEnd: bool

    predicate Valid()
      reads this
    {
      pos <= limit <= |data|
    }

    /** What is left to read before the current limit. */
    function Rest(): seq<Byte>
      reads this
      requires Valid()
    {
      data[pos..limit]
    }

    function Environment(): Env
      reads this
    {
      Env(depth, clamp)
    }

    constructor (bytes: seq<Byte>, depth: nat, clamp: bool)
      ensures Valid() && Rest() == bytes && Environment() == Env(depth, clamp) && !legitimateEnd
    {
      this.data, this.clamp, this.pos, this.limit := bytes, clamp, 0, |bytes|;
      this.depth, this.legitimateEnd := depth, false;
    }

    /** Moves past everything but `rest`, which the caller shows to be a suffix of what is left. */
    method AdvanceTo(rest: seq<Byte>)
      requires Valid() && |rest| <= |Rest()| && Rest() == Used(Rest(), rest) + rest
      modifies this`pos
      ensures Valid() && Rest() == rest
    {
      ghost var before := Rest();
      assert rest == before[|before| - |rest|..];
      pos := limit - |rest|;
    }

    /** The next tag, or 0 at the limit and for a zero or malformed tag. */
    method ReadTag() returns (tag: nat)
      requires Valid()
      modifies this`pos, this`legitimateEnd
      ensures Valid()
      ensures match Wire.ReadTag(old(Rest()))
              case AtEnd => tag == 0 && Rest() == old(Rest()) && legitimateEnd
              case NoTag(rest) => tag == 0 && Rest() == rest && legitimateEnd == old(legitimateEnd)
              case Tag(num, wt, rest) =>
                tag == 8 * num + wt && 0 < tag < TWO_32 && Rest() == rest && legitimateEnd == old(legitimateEnd)
    {
      match Wire.ReadTag(Rest())
      case AtEnd =>
        legitimateEnd := true;
        tag := 0;
      case NoTag(rest) =>
        if rest != Rest() {
          DecodeIsLocal(Rest(), MAX_VARINT_BYTES, []);
          AdvanceTo(rest);
        }
        tag := 0;
      case Tag(num, wt, rest) =>
        TagIsLocal(Rest(), []);
        AdvanceTo(rest);
        tag := 8 * num + wt;
    }

    /** May miss a tag that is there, when the buffer ends before it. */
    method ExpectTag(tag: Byte) returns (found: bool)
      requires Valid()
      modifies this`pos
      ensures Valid()
      ensures found ==> old(Rest()) != [] && old(Rest())[0] == tag && Rest() == old(Rest())[1..]
      ensures !found ==> Rest() == old(Rest())
    {
      var buffered: bool := *;
      found := buffered && pos < limit && data[pos] == tag;
      if found {
        pos := pos + 1;
      }
    }

    /** May miss the end for the same reason. */
    method ExpectAtEnd() returns (found: bool)
      requires Valid()
      modifies this`legitimateEnd
      ensures Valid() && Rest() == old(Rest())
      ensures found ==> Rest() == [] && legitimateEnd
      ensures !found ==> legitimateEnd == old(legitimateEnd)
    {
      var buffered: bool := *;
      found := buffered && pos == limit;
      if found {
        legitimateEnd := true;
      }
    }

    method ReadVarint64() returns (ok: bool, v: nat)
      requires Valid()
      modifies this`pos
      ensures Valid()
      ensures match Varint.ReadVarint64(old(Rest()))
              case Malformed => !ok
              case Value(x, rest) => ok && v == x && Rest() == rest
    {
      match Varint.ReadVarint64(Rest())
      case Malformed => ok, v := false, 0;
      case Value(x, rest) =>
        DecodeIsLocal(Rest(), MAX_VARINT_BYTES, []);
        AdvanceTo(rest);
        ok, v := true, x;
    }

    /** WireFormat::SkipField: what it adds to the UnknownFieldSet, also when it fails halfway. */
    method SkipField(num: nat, wt: nat) returns (ok: bool, kept: seq<Record>)
      requires Valid() && wt < 8
      modifies this`pos
      ensures Valid()
      ensures match ReadPayload(depth, num, wt, old(Rest()))
              case Bad(left) => !ok && kept == left && Rest() == old(Rest())
              case Got(r, rest) =>
                if r.Cut? then !ok && kept == [Torn(r)] && Rest() == old(Rest())
                else ok && kept == [r] && Rest() == rest
    {
      match ReadPayload(depth, num, wt, Rest())
      case Bad(left) => ok, kept := false, left;
      case Got(r, rest) =>
        if r.Cut? {
          ok, kept := false, [Torn(r)];
        } else {
          PayloadIsLocal(depth, num, wt, Rest(), []);
          AdvanceTo(rest);
          ok, kept := true, [r];
        }
    }

    /** ReadVarint32 and PushLimit: reading goes on inside the payload; `outer` restores the limit. */
    method PushLength() returns (ok: bool, outer: nat)
      requires Valid()
      modifies this`pos, this`limit
      ensures Valid()
      ensures match Delimited(clamp, old(Rest()))
              case Refused => !ok
              case Payload(bytes, rest) =>
                ok && Rest() == bytes && limit <= outer == old(limit) && data[limit..outer] == rest
    {
      match Varint.ReadVarint32(Rest())
      case Malformed => ok, outer := false, 0;
      case Value(n, rest) =>
        DecodeIsLocal(Rest(), MAX_VARINT_BYTES, []);
        AdvanceTo(rest);
        outer := limit;
        ok := n < TWO_31 && n <= limit - pos;
        if ok {
          limit := pos + n;
        }
        ok := ok || clamp;
    }

    method PopLimit(outer: nat)
      requires Valid() && pos == limit <= outer <= |data|
      modifies this`limit, this`legitimateEnd
      ensures Valid() && limit == outer && !legitimateEnd
      ensures Rest() == data[old(limit)..outer]
    {
      limit, legitimateEnd := outer, false;
    }
  }
}
