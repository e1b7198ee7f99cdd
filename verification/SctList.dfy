/** The list of signed certificate timestamps in a certificate: a length-prefixed list of
    length-prefixed byte strings (section 3.3 of RFC 6962). */
module SctList {

  type Byte = x: int | 0 <= x < 256
  type Bytes = seq<Byte>

  datatype Outcome =
    | Count(n: nat)
    | ListTruncated
    | WrongLength(declared: nat, carried: nat)
    | TimestampTruncated(number: nat)
    | TimestampShort(number: nat, declared: nat, remaining: nat)

  /** The big-endian number in the first two bytes. */
  function Uint16(b: Bytes): (n: nat)
    requires |b| >= 2
    ensures n < 0x1_0000
  {
    (b[0] as int) * 256 + b[1]
  }

  function Prefix(n: nat): (b: Bytes)
    requires n < 0x1_0000
    ensures |b| == 2 && Uint16(b) == n
    ensures n < 256 ==> b == [0, n]
  {
    [n / 256, n % 256]
  }

  // ---------------------------------------------------------------- the encoding

  predicate Encodable(items: seq<Bytes>) {
    forall i :: 0 <= i < |items| ==> |items[i]| < 0x1_0000
  }

  /** Each byte string behind its length. */
  function EncodeItems(items: seq<Bytes>): Bytes
    requires Encodable(items)
  {
    if items == [] then [] else Prefix(|items[0]|) + items[0] + EncodeItems(items[1..])
  }

  /** The list is the encoding of these byte strings, behind the length of it all. */
  predicate Encodes(list: Bytes, items: seq<Bytes>) {
    && Encodable(items)
    && |EncodeItems(items)| < 0x1_0000
    && list == Prefix(|EncodeItems(items)|) + EncodeItems(items)
  }

  // ---------------------------------------------------------------- the walk

  /** The walk over the timestamps that remain, `count` of them already passed. */
  method WalkTimestamps(body: Bytes) returns (r: Outcome)
    ensures r == Walk(body, 0)
  {
    hide Walk;
    var rest, count := body, 0;
    while |rest| > 0
      invariant Walk(body, 0) == Walk(rest, count)
      decreases |rest|
    {
      WalkStep(rest, count);
      if |rest| < 2 {
        return TimestampTruncated(count + 1);
      }
      var length := Uint16(rest);
      if |rest[2..]| < length {
        return TimestampShort(count + 1, length, |rest[2..]|);
      }
      rest, count := rest[2 + length..], count + 1;
    }
    WalkStep(rest, count);
    return Count(count);
  }

  method ParseSctList(list: Bytes) returns (r: Outcome)
    ensures r == Parse(list)
  {
    hide Walk;
    if |list| < 2 {
      return ListTruncated;
    }
    if Uint16(list) != |list| - 2 {
      return WrongLength(Uint16(list), |list| - 2);
    }
    r := WalkTimestamps(list[2..]);
  }

  function Walk(rest: Bytes, count: nat): (r: Outcome)
    decreases |rest|
  {
    if rest == [] then Count(count)
    else if |rest| < 2 then TimestampTruncated(count + 1)
    else
      var length := Uint16(rest);
      if |rest| - 2 < length then TimestampShort(count + 1, length, |rest| - 2)
      else Walk(rest[2 + length..], count + 1)
  }

  lemma WalkStep(rest: Bytes, count: nat)
    ensures Walk(rest, count) ==
              if rest == [] then Count(count)
              else if |rest| < 2 then TimestampTruncated(count + 1)
              else if |rest| - 2 < Uint16(rest) then TimestampShort(count + 1, Uint16(rest), |rest| - 2)
              else Walk(rest[2 + Uint16(rest)..], count + 1)
  {
  }

  function Parse(list: Bytes): Outcome {
    if |list| < 2 then ListTruncated
    else if Uint16(list) != |list| - 2 then WrongLength(Uint16(list), |list| - 2)
    else Walk(list[2..], 0)
  }

  // ---------------------------------------------------------------- what the walk accepts

  lemma EncodeItemsCons(items: seq<Bytes>)
    requires Encodable(items) && items != []
    ensures var b := EncodeItems(items);
            && |b| >= 2 + |items[0]| && Uint16(b) == |items[0]|
            && b[2..2 + |items[0]|] == items[0] && b[2 + |items[0]|..] == EncodeItems(items[1..])
  {
  }

  /** An encoded list is walked to its end, one step for each byte string. */
  lemma {:induction false} WalkEncoded(items: seq<Bytes>, count: nat)
    requires Encodable(items)
    ensures Walk(EncodeItems(items), count) == Count(count + |items|)
    decreases |items|
  {
    hide EncodeItems, Walk;
    WalkStep(EncodeItems(items), count);
    if items == [] {
      EncodeNothing();
    } else {
      EncodeItemsCons(items);
      WalkEncoded(items[1..], count + 1);
    }
  }

  lemma EncodeNothing()
    ensures EncodeItems([]) == []
  {
  }

  /** Whatever is walked to its end is the encoding of some byte strings. */
  lemma {:induction false} WalkedIsEncoded(rest: Bytes, count: nat) returns (items: seq<Bytes>)
    requires Walk(rest, count).Count?
    ensures Encodable(items) && EncodeItems(items) == rest && Walk(rest, count).n == count + |items|
    decreases |rest|
  {
    hide Walk;
    WalkStep(rest, count);
    if rest == [] {
      items := [];
    } else {
      var n := Uint16(rest);
      var tail := WalkedIsEncoded(rest[2 + n..], count + 1);
      items := [rest[2..2 + n]] + tail;
      assert items[1..] == tail && items[0] == rest[2..2 + n];
      PrefixOf(rest);
      assert rest == rest[..2] + rest[2..2 + n] + rest[2 + n..];
    }
  }

  lemma PrefixOf(b: Bytes)
    requires |b| >= 2
    ensures Prefix(Uint16(b)) == b[..2]
  {
  }

  /** Two lists of byte strings with the same encoding are the same list. */
  lemma {:induction false} EncodingUnique(a: seq<Bytes>, b: seq<Bytes>)
    requires Encodable(a) && Encodable(b) && EncodeItems(a) == EncodeItems(b)
    ensures a == b
    decreases |a|
  {
    hide EncodeItems;
    if a == [] || b == [] {
      EncodeNothing();
      if a != [] {
        EncodeItemsCons(a);
      }
      if b != [] {
        EncodeItemsCons(b);
      }
    } else {
      EncodeItemsCons(a);
      EncodeItemsCons(b);
      EncodingUnique(a[1..], b[1..]);
      assert a == [a[0]] + a[1..] && b == [b[0]] + b[1..];
    }
  }

  /** A byte string is accepted exactly when it encodes some list of byte strings, and the
      count answered is the length of that list. */
  lemma AcceptsEncodings(list: Bytes, n: nat)
    ensures Parse(list) == Count(n) <==> exists items :: Encodes(list, items) && |items| == n
  {
    hide Walk, EncodeItems;
    if Parse(list) == Count(n) {
      var items := WalkedIsEncoded(list[2..], 0);
      PrefixOf(list);
      assert Encodes(list, items) && |items| == n;
    }
    if exists items :: Encodes(list, items) && |items| == n {
      var items :| Encodes(list, items) && |items| == n;
      var head, body := Prefix(|EncodeItems(items)|), EncodeItems(items);
      assert list[..2] == head && list[2..] == body && list[0] == head[0] && list[1] == head[1];
      WalkEncoded(items, 0);
    }
  }

  /** The list a byte string encodes is the only one it does. */
  lemma DecodedOnce(list: Bytes, a: seq<Bytes>, b: seq<Bytes>)
    requires Encodes(list, a) && Encodes(list, b)
    ensures a == b
  {
    hide EncodeItems;
    assert list[2..] == EncodeItems(a) && list[2..] == EncodeItems(b);
    EncodingUnique(a, b);
  }

  // ---------------------------------------------------------------- where the walk stops

  /** The body is some encoded byte strings, then what is no whole one. */
  predicate StopsAt(body: Bytes, items: seq<Bytes>, tail: Bytes) {
    && Encodable(items) && body == EncodeItems(items) + tail
    && (|tail| >= 2 ==> |tail| - 2 < tail[0] as int * 256 + tail[1])
  }

  /** What is left of the walk when it stops at a tail, `count` byte strings passed. */
  function Stopped(tail: Bytes, count: nat): Outcome {
    if tail == [] then Count(count)
    else if |tail| == 1 then TimestampTruncated(count + 1)
    else TimestampShort(count + 1, tail[0] as int * 256 + tail[1], |tail| - 2)
  }

  lemma EncodeFirst(first: Bytes, more: seq<Bytes>)
    requires |first| < 0x1_0000 && Encodable(more)
    ensures Encodable([first] + more) && EncodeItems([first] + more) == Prefix(|first|) + first + EncodeItems(more)
  {
    assert ([first] + more)[1..] == more;
  }

  lemma {:induction false} WalkStops(body: Bytes, count: nat) returns (items: seq<Bytes>, tail: Bytes)
    ensures StopsAt(body, items, tail) && Walk(body, count) == Stopped(tail, count + |items|)
    decreases |body|
  {
    hide Walk, EncodeItems, Prefix;
    WalkStep(body, count);
    if |body| < 2 || |body| - 2 < Uint16(body) {
      items, tail := [], body;
      EncodeNothing();
      assert [] + body == body;
    } else {
      var n := Uint16(body);
      var more;
      more, tail := WalkStops(body[2 + n..], count + 1);
      items := [body[2..2 + n]] + more;
      EncodeFirst(body[2..2 + n], more);
      PrefixOf(body);
      assert body == body[..2] + body[2..2 + n] + (EncodeItems(more) + tail);
    }
  }

  lemma {:induction false} StopsOnce(body: Bytes, items: seq<Bytes>, tail: Bytes, count: nat)
    requires StopsAt(body, items, tail)
    ensures Walk(body, count) == Stopped(tail, count + |items|)
    decreases |items|
  {
    hide Walk, EncodeItems;
    WalkStep(body, count);
    if items == [] {
      EncodeNothing();
      assert body == tail;
    } else {
      EncodeItemsCons(items);
      var n := |items[0]|;
      assert body[0] == EncodeItems(items)[0] && body[1] == EncodeItems(items)[1];
      assert body[2 + n..] == EncodeItems(items[1..]) + tail;
      StopsOnce(body[2 + n..], items[1..], tail, count + 1);
    }
  }

  /** Every outcome but a count names the first thing wrong and where it is: the list itself, or
      what follows so many whole byte strings. */
  lemma OutcomeExactly(list: Bytes)
    ensures |list| < 2 <==> Parse(list) == ListTruncated
    ensures |list| >= 2 ==>
              var declared := list[0] as int * 256 + list[1];
              && (declared != |list| - 2 ==> Parse(list) == WrongLength(declared, |list| - 2))
              && (declared == |list| - 2 ==> forall items, tail :: StopsAt(list[2..], items, tail) ==> Parse(list) == Stopped(tail, |items|))
              && exists items, tail :: StopsAt(list[2..], items, tail)
  {
    hide Walk, StopsAt;
    if |list| >= 2 {
      var items, tail := WalkStops(list[2..], 0);
      forall items, tail | StopsAt(list[2..], items, tail)
        ensures Walk(list[2..], 0) == Stopped(tail, |items|)
      {
        StopsOnce(list[2..], items, tail, 0);
      }
    }
  }
}
