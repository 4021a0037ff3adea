/**
  msg_cards, and what the messages that list cards do with the list. bainiu_play_log has the same
  generated code for its one list seats_win, so the reply of play logs uses this class too.
 */
module Cards {
  import opened Varint
  import opened Wire
  import opened Codec
  import opened Invariants
  import opened Merging
  import opened Stream
  import opened Sizes
  import opened WireFormatLite
  import opened Generated
  import opened Tables

  class MsgCards {
    var cards: seq<int>
    var unknownFields: seq<Record>
    var cachedSize: nat

    // The message the fields make up.
    ghost var view: Msg

    ghost predicate Valid()
      reads `view, `cards, `unknownFields
      ensures Valid() ==> Shaped(CARDS, view) && Codec.Valid(CARDS, view)
    {
      view == Msg([Ints(cards)], unknownFields) && Codec.Valid(CARDS, view)
    }

    lemma Facts()
      requires Valid()
      ensures AllInRange(UInt32, cards) && AllForeign(CARDS, unknownFields)
    {
      assert ValidValue(CARDS.fields[0], view.vals[0]);
    }

    constructor ()
      ensures Valid() && view == Fresh(CARDS)
    {
      cards, unknownFields, cachedSize := [], [], 0;
      view := Msg([Ints([])], []);
      new;
      FreshIsValid(CARDS);
      assert Fresh(CARDS).vals == [Ints([])];
    }

    method AddCards(xs: seq<int>)
      requires Valid() && AllInRange(UInt32, xs)
      modifies this
      ensures Valid() && old(view.vals[0].Ints?) && view == AddInts(old(view), 0, xs) && cachedSize == old(cachedSize)
    {
      AddIntsIsValid(CARDS, view, 0, xs);
      cards := cards + xs;
      view := AddInts(view, 0, xs);
    }

    method Clear()
      requires Valid()
      modifies this
      ensures Valid() && view == Fresh(CARDS) && cachedSize == old(cachedSize)
    {
      cards, unknownFields := [], [];
      view := Msg([Ints([])], []);
      FreshIsValid(CARDS);
      assert Fresh(CARDS).vals == [Ints([])];
    }

    // ------------------------------------------------------------------------------------- parsing

    method ParseField(wt: nat, input: CodedInputStream) returns (ok: bool)
      requires Valid() && input.Valid() && !input.legitimateEnd && (wt == VARINT || wt == LENGTH_DELIMITED)
      modifies this, input`pos, input`limit, input`legitimateEnd
      ensures Valid() && input.Valid() && !input.legitimateEnd
      ensures ok ==> |input.Rest()| < |old(input.Rest())| && input.limit == old(input.limit)
      ensures AfterTag(input.Environment(), CARDS, 1, wt, old(input.Rest()), old(view))
           == if ok then Parse(input.Environment(), CARDS, input.Rest(), view) else Fail(view)
    {
      var xs;
      if wt == VARINT {
        ok, xs := ReadRepeatedPrimitive(input, UInt32, 8, CARDS, 1, view);
      } else {
        ok, xs := ReadPackedPrimitive(input, UInt32, CARDS, 1, view);
      }
      AddCards(xs);
    }

    method ExpectNext(input: CodedInputStream) returns (next: nat)
      requires input.Valid() && !input.legitimateEnd
      modifies input`pos, input`legitimateEnd
      ensures input.Valid() && Followed(CARDS, next, old(input.Rest()), input.Rest(), input.legitimateEnd)
    {
      next := Jump(8, 1, input, CARDS);
      if next == 0 {
        next := End(input, CARDS);
      }
    }

    /** Adds records at the end of the unknown fields. */
    method AddUnknownFields(rs: seq<Record>)
      requires Valid() && AllForeign(CARDS, rs)
      modifies this
      ensures Valid() && view == AddUnknowns(old(view), rs) && cachedSize == old(cachedSize)
    {
      hide Codec.Valid;
      AddUnknownsIsValid(CARDS, view, rs);
      unknownFields := unknownFields + rs;
      view := AddUnknowns(view, rs);
    }

    /** The end of the enclosing group ends the loop; anything else is kept, as far as it can be read. */
    method HandleUninterpreted(num: nat, wt: nat, input: CodedInputStream) returns (ok: bool, ended: bool)
      requires Valid() && input.Valid() && wt < 8 && 0 < 8 * num + wt < TWO_32 && !Accepts(CARDS, num, wt)
      modifies this, input`pos
      ensures Valid() && input.Valid() && (ok && !ended ==> |input.Rest()| <= |old(input.Rest())|)
      ensures AfterTag(input.Environment(), CARDS, num, wt, old(input.Rest()), old(view))
           == if !ok then Fail(view)
              else if ended then Done(view, input.Rest(), EndGroupTag)
              else Parse(input.Environment(), CARDS, input.Rest(), view)
    {
      hide Codec.Valid, Codec.Accepts, Codec.Parse, Codec.AfterTag, MsgCards.Valid;
      if wt == END_GROUP {
        EndGroupAfterTag(input.Environment(), CARDS, num, input.Rest(), view);
        return true, true;
      }
      ended := false;
      var kept;
      ok, kept := ReadUnknown(input, num, wt, CARDS, view);
      AddUnknownFields(kept);
    }

    /**
      The tag loop with its jumps: `jumped` holds when the tag of field `num` was matched by
      ExpectTag and the loop continues at that field's label. Whatever ExpectTag and ExpectAtEnd
      answer, the outcome is that of the loop without them.
     */
    method MergePartialFromCodedStream(input: CodedInputStream) returns (ok: bool)
      requires Valid() && input.Valid() && !input.legitimateEnd
      modifies this, input
      ensures Valid()
      ensures ParsedAs(Parse(old(input.Environment()), CARDS, old(input.Rest()), old(view)), ok, view, input)
      ensures ok ==> input.limit == old(input.limit) && input.depth == old(input.depth)
    {
      hide MsgCards.Valid, Codec.Valid, Codec.Parse, Codec.AfterTag, Codec.Accepts, Codec.OneByteTags, Generated.Followed,
        Wire.ReadTag, CodedInputStream.Rest;
      ghost var env, o := input.Environment(), Parse(input.Environment(), CARDS, input.Rest(), view);
      var num, wt, jumped := 0, 0, false;
      while true
        invariant Valid() && input.Valid() && !input.legitimateEnd && wt < 8
        invariant input.limit == old(input.limit) && input.depth == old(input.depth)
        invariant jumped ==> Accepts(CARDS, num, wt)
        invariant o == if jumped then AfterTag(env, CARDS, num, wt, input.Rest(), view)
                       else Parse(env, CARDS, input.Rest(), view)
        decreases |input.Rest()|
      {
        if !jumped {
          ParseReadsTag(env, CARDS, input.Rest(), view);
          var tag := input.ReadTag();
          if tag == 0 {
            return true;
          }
          num, wt := tag / 8, tag % 8;
        }
        jumped := false;
        CardsAccepts(num, wt);
        if num == 1 && (wt == VARINT || wt == LENGTH_DELIMITED) {
          ok := ParseField(wt, input);
          if !ok {
            return;
          }
          ghost var at := input.Rest();
          var next := ExpectNext(input);
          TagsAreOneByte();
          FollowedMeans(env, CARDS, next, at, input.Rest(), input.legitimateEnd, view);
          if next == AT_END {
            return true;
          } else if next != 0 {
            num, wt, jumped := next, WireTypeOf(CARDS.fields[next - 1]), true;
          }
        } else {
          var ended;
          ok, ended := HandleUninterpreted(num, wt, input);
          if !ok || ended {
            return;
          }
        }
      }
    }

    // --------------------------------------------------------------------------------- serializing

    method ByteSize() returns (size: nat)
      requires Valid()
      modifies this`cachedSize
      ensures Valid() && Codec.Valid(CARDS, view) && size == Sizes.ByteSize(CARDS, view) && cachedSize == size
    {
      Facts();
      CardsSize(cards, unknownFields);
      size := ListSize(UInt32, cards);
      size := size + UnknownSize(unknownFields);
      cachedSize := size;
    }

    method SerializeWithCachedSizesToArray(buf: array<Byte>, at: nat) returns (end: nat)
      requires Valid() && Codec.Valid(CARDS, view) && at + |Serialize(CARDS, view)| <= buf.Length
      modifies buf
      ensures end == at + |Serialize(CARDS, view)|
      ensures buf[..end] == old(buf[..at]) + Serialize(CARDS, view)
      ensures buf[end..] == old(buf[..])[end..]
    {
      ghost var was := buf[..];
      assert was[..at] + [] == was[..at];
      end := WriteList(1, UInt32, cards, buf, at, was, at, CARDS, view);
      end := WriteUnknown(unknownFields, buf, end, was, at, CARDS, view);
    }

    // ------------------------------------------------------------------------------------- merging

    method MergeFrom(from: MsgCards)
      requires Valid() && from.Valid() && from != this
      modifies this
      ensures Valid() && view == Merge(CARDS, old(view), from.view) && cachedSize == old(cachedSize)
    {
      MergeKeepsValid(CARDS, view, from.view);
      cards, unknownFields := cards + from.cards, unknownFields + from.unknownFields;
      view := Merge(CARDS, view, from.view);
      assert view.vals == [Ints(cards)];
    }

    method CopyFrom(from: MsgCards)
      requires Valid() && from.Valid()
      modifies this
      ensures Valid() && view == old(from.view) && cachedSize == old(cachedSize)
    {
      if from == this {
        return;
      }
      Clear();
      MergeFrom(from);
      CopyIsExactlyForDefaults(CARDS, from.view);
    }

    method Swap(other: MsgCards)
      requires Valid() && other.Valid()
      modifies this, other
      ensures Valid() && other.Valid()
      ensures view == old(other.view) && other.view == old(view)
      ensures cachedSize == old(other.cachedSize) && other.cachedSize == old(cachedSize)
    {
      if other != this {
        cards, other.cards := other.cards, cards;
        unknownFields, other.unknownFields := other.unknownFields, unknownFields;
        cachedSize, other.cachedSize := other.cachedSize, cachedSize;
        view, other.view := other.view, view;
      }
    }
  }

  lemma CardsAccepts(num: nat, wt: nat)
    ensures Accepts(CARDS, num, wt) <==> num == 1 && (wt == VARINT || wt == LENGTH_DELIMITED)
  {
  }

  lemma CardsSize(cards: seq<int>, unknown: seq<Record>)
    requires Codec.Valid(CARDS, Msg([Ints(cards)], unknown))
    ensures AllStorable(unknown) && AllInRange(UInt32, cards)
    ensures Sizes.ByteSize(CARDS, Msg([Ints(cards)], unknown)) == FieldSize(Repeated(UInt32), Ints(cards))
        + UnknownSize(unknown)
  {
    var m := Msg([Ints(cards)], unknown);
    assert ValidValue(CARDS.fields[0], m.vals[0]);
    assert forall i :: 0 <= i < |unknown| ==> ForeignTo(CARDS, unknown[i]);
    assert FieldsSize(CARDS, m, 1) == FieldsSize(CARDS, m, 0) + FieldSize(Repeated(UInt32), Ints(cards));
  }

  // ---------------------------------------------------------------------------------- the list in a message

  /** The messages the objects of a list stand for. */
  ghost function Views(cs: seq<MsgCards>): (ms: seq<Msg>)
    reads cs`view
    ensures |ms| == |cs| && forall i :: 0 <= i < |cs| ==> ms[i] == cs[i].view
  {
    if cs == [] then [] else Views(cs[..|cs| - 1]) + [cs[|cs| - 1].view]
  }

  /** Each element is an object of its own. */
  ghost predicate ValidList(cs: seq<MsgCards>)
    reads cs`view, cs`cards, cs`unknownFields
  {
    && (forall i :: 0 <= i < |cs| ==> cs[i].Valid())
    && (forall i, j :: 0 <= i < j < |cs| ==> cs[i] != cs[j])
  }

  /** The sizes ByteSize left in the elements are those of what they hold now. */
  ghost predicate SizesAreCurrent(cs: seq<MsgCards>)
    reads cs
  {
    forall i :: 0 <= i < |cs| ==>
      Codec.Valid(CARDS, cs[i].view) && cs[i].cachedSize == Sizes.ByteSize(CARDS, cs[i].view)
  }

  lemma ViewsAreValid(cs: seq<MsgCards>)
    requires ValidList(cs)
    ensures forall j :: 0 <= j < |cs| ==> Codec.Valid(CARDS, Views(cs)[j])
  {
    forall j | 0 <= j < |cs|
      ensures Codec.Valid(CARDS, Views(cs)[j])
    {
      assert cs[j].Valid();
    }
  }

  lemma EmptyList()
    ensures ValidList([]) && Views([]) == []
  {
  }

  /** RepeatedPtrField::Add: a fresh element at the end of the list. */
  method Append(cs: seq<MsgCards>) returns (all: seq<MsgCards>)
    requires ValidList(cs)
    ensures |all| == |cs| + 1 && all[..|cs|] == cs && fresh(all[|cs|])
    ensures ValidList(all) && Views(all) == Views(cs) + [Fresh(CARDS)]
  {
    hide MsgCards.Valid, Codec.Fresh;
    ghost var had := Views(cs);
    var card := new MsgCards();
    all := cs + [card];
    assert Views(all) == had + [card.view];
  }

  /**
    ReadMessageNoVirtual into the element just added: the whole payload must be consumed, up to its
    own end, and an element that fails to parse stays, partly filled.
   */
  method ReadLast(input: CodedInputStream, cs: seq<MsgCards>, ghost s: Schema, ghost num: nat, ghost m: Msg)
      returns (ok: bool)
    requires input.Valid() && !input.legitimateEnd && ValidList(cs) && cs != [] && Views(cs)[|cs| - 1] == Fresh(CARDS)
    requires Shaped(s, m) && 1 <= num <= |s.fields| && s.fields[num - 1] == Nested(CARDS) && m.vals[num - 1].Msgs?
    modifies cs[|cs| - 1], input
    ensures ValidList(cs) && Views(cs)[..|cs| - 1] == old(Views(cs))[..|cs| - 1]
    ensures Codec.Valid(CARDS, Views(cs)[|cs| - 1])
    ensures ok ==> input.Valid() && !input.legitimateEnd && input.limit == old(input.limit) && input.depth == old(input.depth)
    ensures ok ==> |input.Rest()| < |old(input.Rest())|
    ensures AfterTag(old(input.Environment()), s, num, LENGTH_DELIMITED, old(input.Rest()), m)
         == AfterElement(old(input.Environment()), s, num, Views(cs)[|cs| - 1], ok, if ok then input.Rest() else [], m)
  {
    hide Codec.Valid, MsgCards.Valid, Codec.Parse, Codec.AfterTag, Codec.Shaped, Stream.Delimited, Codec.Fresh, Views;
    MessageAfterTag(input.Environment(), s, num, input.Rest(), m);
    var card := cs[|cs| - 1];
    var outer;
    ok, outer := BeginMessage(input);
    if ok {
      ok := card.MergePartialFromCodedStream(input);
      if ok && input.legitimateEnd {
        assert input.Rest() == [];
        EndMessage(input, outer);
      } else {
        ok := false;
      }
    }
  }

  /** The tags, length prefixes and payloads of a list; each element is left with its size cached. */
  method SizeAll(cs: seq<MsgCards>) returns (size: nat)
    requires ValidList(cs)
    modifies cs`cachedSize
    ensures ValidList(cs) && Views(cs) == old(Views(cs)) && SizesAreCurrent(cs)
    ensures forall j :: 0 <= j < |cs| ==> Codec.Valid(CARDS, Views(cs)[j])
    ensures size == |cs| + MsgsSize(CARDS, Views(cs))
  {
    hide Codec.Valid, MsgCards.Valid, Views, Sizes.MsgsSize, Sizes.ByteSize;
    ViewsAreValid(cs);
    ghost var ms := Views(cs);
    MsgsSizeStart(CARDS, ms);
    size := 1 * |cs|;
    for i := 0 to |cs|
      invariant ValidList(cs) && Views(cs) == ms
      invariant forall j :: 0 <= j < i ==> cs[j].cachedSize == Sizes.ByteSize(CARDS, ms[j])
      invariant size == |cs| + MsgsSize(CARDS, ms[..i])
    {
      var n := cs[i].ByteSize();
      MsgsSizeStep(CARDS, ms, i);
      size := size + LengthDelimitedSize(n);
    }
  }

  /**
    WriteMessageNoVirtualToArray: the length prefix is the cached size, taken on trust, and the
    element is written right behind it.
   */
  method WriteOne(num: nat, card: MsgCards, buf: array<Byte>, at: nat) returns (end: nat)
    requires card.Valid() && Codec.Valid(CARDS, card.view)
    requires card.cachedSize == |Serialize(CARDS, card.view)| < TWO_31
    requires at + |Encode(Len(num, Serialize(CARDS, card.view)))| <= buf.Length
    modifies buf
    ensures end == at + |Encode(Len(num, Serialize(CARDS, card.view)))|
    ensures buf[..end] == old(buf[..at]) + Encode(Len(num, Serialize(CARDS, card.view)))
    ensures buf[end..] == old(buf[..])[end..]
  {
    hide Codec.Valid, MsgCards.Valid, Codec.Serialize;
    ghost var was, bytes := buf[..], Serialize(CARDS, card.view);
    end := WriteRaw(EncodeTag(num, LENGTH_DELIMITED), buf, at);
    ghost var was1, at1 := buf[..], end;
    end := WriteRaw(EncodeVarint(card.cachedSize), buf, end);
    ghost var was2, at2 := buf[..], end;
    KeepsTail(was2, was1, was, at1, at2);
    end := card.SerializeWithCachedSizesToArray(buf, end);
    KeepsTail(buf[..], was2, was, at2, end);
    assert buf[..end] == was[..at] + EncodeTag(num, LENGTH_DELIMITED) + EncodeVarint(|bytes|) + bytes;
    Assoc(was[..at] + EncodeTag(num, LENGTH_DELIMITED), EncodeVarint(|bytes|), bytes);
    Assoc(was[..at], EncodeTag(num, LENGTH_DELIMITED), EncodeVarint(|bytes|) + bytes);
  }

  /** What WriteOne needs of the next element: an exact cached size, and room. */
  lemma ElementIsSized(num: nat, ms: seq<Msg>, i: nat)
    requires (forall j :: 0 <= j < |ms| ==> Codec.Valid(CARDS, ms[j])) && i < |ms| && MsgsSize(CARDS, ms) < TWO_31
    ensures Sizes.ByteSize(CARDS, ms[i]) == |Serialize(CARDS, ms[i])| < TWO_31
    ensures |EncodeAll(MsgRecords(num, CARDS, ms[..i + 1]))| <= |EncodeAll(MsgRecords(num, CARDS, ms))|
  {
    ElementIsSmaller(CARDS, ms, i);
    TagsAreOneByte();
    ByteSizeIsExact(CARDS, ms[i]);
    MessagesAreWithin(num, CARDS, ms, i + 1);
  }

  /** The list as field `num` of a message, once the fields before it are written. */
  method WriteAll(num: nat, cs: seq<MsgCards>, buf: array<Byte>, at: nat,
                  ghost was: seq<Byte>, ghost from: nat, ghost s: Schema, ghost m: Msg)
      returns (end: nat)
    requires ValidList(cs) && SizesAreCurrent(cs)
    requires Codec.Valid(s, m) && 1 <= num <= |s.fields| && s.fields[num - 1] == Nested(CARDS)
        && m.vals[num - 1] == Msgs(Views(cs))
    requires (forall j :: 0 <= j < |cs| ==> Codec.Valid(CARDS, Views(cs)[j])) && MsgsSize(CARDS, Views(cs)) < TWO_31
    requires from + |Serialize(s, m)| <= buf.Length && HasWritten(buf, at, was, from, s, m, num - 1)
    modifies buf
    ensures HasWritten(buf, end, was, from, s, m, num)
  {
    hide Codec.Valid, MsgCards.Valid, Codec.Serialize, Sizes.ByteSize, Views, Codec.MsgRecords, Wire.EncodeAll,
        Wire.Encode, Sizes.MsgsSize;
    ghost var ms, before := Views(cs), was[..from] + Written(s, m, num - 1);
    WrittenStep(s, m, num);
    WrittenIsWithin(s, m, num);
    end := at;
    MessagesWrittenStart(num, CARDS, ms);
    assert before + [] == before;
    for i := 0 to |cs|
      invariant at <= end <= buf.Length
      invariant buf[..end] == before + EncodeAll(MsgRecords(num, CARDS, ms[..i])) && buf[end..] == was[end..]
    {
      ghost var r, prev, prevAt := Len(num, Serialize(CARDS, ms[i])), buf[..], end;
      ElementIsSized(num, ms, i);
      MessagesWrittenStep(num, CARDS, ms, i);
      end := WriteOne(num, cs[i], buf, end);
      Assoc(before, EncodeAll(MsgRecords(num, CARDS, ms[..i])), Encode(r));
      KeepsTail(buf[..], prev, was, prevAt, end);
    }
    assert ms[..|ms|] == ms;
    Assoc(was[..from], Written(s, m, num - 1), EncodeAll(MsgRecords(num, CARDS, ms)));
  }

  /** RepeatedPtrField::MergeFrom: a copy of each element of `theirs` is added at the end. */
  method MergeList(mine: seq<MsgCards>, theirs: seq<MsgCards>) returns (all: seq<MsgCards>)
    requires ValidList(mine) && ValidList(theirs)
    ensures ValidList(all) && Views(all) == Views(mine) + Views(theirs)
    ensures |all| == |mine| + |theirs| && all[..|mine|] == mine
    ensures forall j :: |mine| <= j < |all| ==> fresh(all[j])
  {
    hide MsgCards.Valid, Codec.Valid, Views;
    ghost var had, more := Views(mine), Views(theirs);
    all := mine;
    for i := 0 to |theirs|
      invariant ValidList(all) && |all| == |mine| + i && all[..|mine|] == mine
      invariant forall j :: |mine| <= j < |all| ==> fresh(all[j])
      invariant Views(all) == had + more[..i]
    {
      var card := new MsgCards();
      all := all + [card];
      card.MergeFrom(theirs[i]);
      CopyIsExactlyForDefaults(CARDS, more[i]);
      assert Views(all) == had + more[..i] + [more[i]];
      assert more[..i + 1] == more[..i] + [more[i]];
    }
    assert more[..|more|] == more;
  }
}
