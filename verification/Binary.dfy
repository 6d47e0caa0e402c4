/** The bounded big-endian writer and reader, and scripts of typed operations on them. */
module Binary {
  import opened Words
  import opened Types

  // ---------- What is written ----------

  datatype Item =
    | Integer(width: nat, value: nat)
    | Raw(bytes: Bytes)
    | Text(bytes: Bytes)
  {
    // Integers are 8, 16, 32 or 64 bits wide and fit their type.
    predicate WellTyped() {
      Integer? ==> width in {1, 2, 4, 8} && value < Pow256(width)
    }
  }

  function Image(item: Item): (r: Bytes) {
    match item
    case Integer(width, value) => BigEndian(value, width)
    case Raw(bytes) => bytes
    case Text(bytes) => BigEndian(Narrow32(|bytes|), 4) + bytes
  }

  // A string's length prefix has 32 bits.
  predicate Representable(item: Item) {
    item.Text? ==> |item.bytes| <= U32_MAX
  }

  // The items of a script that a writer holding `size` bytes accepts, in order.
  function Kept(limit: nat, size: nat, items: seq<Item>): (r: seq<Item>)
    decreases |items|
  {
    if items == [] then []
    else if Representable(items[0]) && size + |Image(items[0])| <= limit then
      [items[0]] + Kept(limit, size + |Image(items[0])|, items[1..])
    else
      Kept(limit, size, items[1..])
  }

  // Which items of the script are accepted.
  function Verdicts(limit: nat, size: nat, items: seq<Item>): (r: seq<bool>)
    decreases |items|
  {
    if items == [] then []
    else if Representable(items[0]) && size + |Image(items[0])| <= limit then
      [true] + Verdicts(limit, size + |Image(items[0])|, items[1..])
    else
      [false] + Verdicts(limit, size, items[1..])
  }

  class BinaryWriter {
    const limit: Size
    var bytes: Bytes

    ghost predicate Valid()
      reads this
    {
      |bytes| <= limit
    }

    constructor (limit: Size)
      ensures Valid() && this.limit == limit && bytes == []
    {
      this.limit := limit;
      bytes := [];
    }

    predicate CanAppend(count: nat)
      reads this
    {
      count <= Minus(limit, Min(limit, |bytes|))
    }

    method Write(value: nat, width: nat) returns (r: Result<()>)
      modifies this
      requires Valid()
      ensures Valid()
      ensures r == if old(|bytes|) + width <= limit then Ok(()) else Err(LimitExceeded)
      ensures bytes == if r.Ok? then old(bytes) + BigEndian(value, width) else old(bytes)
    {
      if !CanAppend(width) {
        return Err(LimitExceeded);
      }
      bytes := AppendBigEndian(bytes, value, width);
      return Ok(());
    }

    method WriteBytes(more: Bytes) returns (r: Result<()>)
      modifies this
      requires Valid()
      ensures Valid()
      ensures r == if old(|bytes|) + |more| <= limit then Ok(()) else Err(LimitExceeded)
      ensures bytes == if r.Ok? then old(bytes) + more else old(bytes)
    {
      if !CanAppend(|more|) {
        return Err(LimitExceeded);
      }
      bytes := bytes + more;
      return Ok(());
    }

    method WriteString(value: Bytes) returns (r: Result<()>)
      modifies this
      requires Valid()
      ensures Valid()
      ensures r == if |value| <= U32_MAX && old(|bytes|) + 4 + |value| <= limit then Ok(()) else Err(LimitExceeded)
      ensures bytes == if r.Ok? then old(bytes) + (BigEndian(|value|, 4) + value) else old(bytes)
    {
      if |value| > U32_MAX || |value| > Minus(SIZE_MAX, 4) || !CanAppend(Plus(4, |value|)) {
        return Err(LimitExceeded);
      }
      hide BigEndian;
      var length := Narrow32(|value|);
      Reassociate(bytes, BigEndian(length, 4), value);
      bytes := AppendBigEndian(bytes, length, 4);
      bytes := bytes + value;
      return Ok(());
    }

    method WriteItem(item: Item) returns (r: Result<()>)
      modifies this
      requires Valid()
      ensures Valid()
      ensures r.Ok? <==> Representable(item) && old(|bytes|) + |Image(item)| <= limit
      ensures r.Err? ==> r.error == LimitExceeded
      ensures bytes == if r.Ok? then old(bytes) + Image(item) else old(bytes)
    {
      hide BigEndian;
      match item
      case Integer(width, value) => r := Write(value, width);
      case Raw(more) => r := WriteBytes(more);
      case Text(value) => r := WriteString(value);
    }

    /** After any script the buffer is exactly the images of the accepted items, within the limit. */
    method WriteScript(items: seq<Item>) returns (results: seq<bool>)
      modifies this
      requires Valid()
      ensures Valid()
      ensures bytes == old(bytes) + Flatten(Image, Kept(limit, old(|bytes|), items))
      ensures results == Verdicts(limit, old(|bytes|), items)
    {
      hide Image, Representable, Kept, Verdicts, Flatten;
      results := [];
      ghost var expected := bytes + Flatten(Image, Kept(limit, |bytes|, items));
      ghost var verdicts := Verdicts(limit, |bytes|, items);
      assert items[0..] == items;
      for i := 0 to |items|
        invariant Valid()
        invariant expected == bytes + Flatten(Image, Kept(limit, |bytes|, items[i..]))
        invariant verdicts == results + Verdicts(limit, |bytes|, items[i..])
      {
        assert items[i..][0] == items[i] && items[i..][1..] == items[i + 1..];
        KeptAfter(limit, bytes, items[i..]);
        VerdictsStep(limit, |bytes|, items[i..], results);
        var r := WriteItem(items[i]);
        results := results + [r.Ok?];
      }
      EmptyScript(limit, |bytes|, items[|items|..]);
      assert bytes + [] == bytes && results + [] == results;
    }
  }

  lemma EmptyScript(limit: nat, size: nat, items: seq<Item>)
    requires items == []
    ensures Flatten(Image, Kept(limit, size, items)) == [] && Verdicts(limit, size, items) == []
  {
  }

  lemma KeptStep(limit: nat, size: nat, items: seq<Item>)
    requires items != []
    ensures var more := Image(items[0]);
            Flatten(Image, Kept(limit, size, items))
            == if Representable(items[0]) && size + |more| <= limit
               then more + Flatten(Image, Kept(limit, size + |more|, items[1..]))
               else Flatten(Image, Kept(limit, size, items[1..]))
  {
    hide Image, Representable;
    var more := Image(items[0]);
    if Representable(items[0]) && size + |more| <= limit {
      var others := Kept(limit, size + |more|, items[1..]);
      assert ([items[0]] + others)[1..] == others;
    }
  }

  lemma KeptAfter(limit: nat, before: Bytes, items: seq<Item>)
    requires items != []
    ensures var more := Image(items[0]);
            var after := if Representable(items[0]) && |before| + |more| <= limit then before + more else before;
            before + Flatten(Image, Kept(limit, |before|, items))
            == after + Flatten(Image, Kept(limit, |after|, items[1..]))
  {
    hide Image, Representable, Kept, Flatten;
    var more := Image(items[0]);
    KeptStep(limit, |before|, items);
    Reassociate(before, more, Flatten(Image, Kept(limit, |before| + |more|, items[1..])));
  }

  lemma VerdictsStep(limit: nat, size: nat, items: seq<Item>, results: seq<bool>)
    requires items != []
    ensures var more := |Image(items[0])|;
            var fits := Representable(items[0]) && size + more <= limit;
            results + Verdicts(limit, size, items)
            == (results + [fits]) + Verdicts(limit, if fits then size + more else size, items[1..])
  {
  }

  // ---------- What is read ----------

  datatype Request = AskInteger(width: nat) | AskRaw(count: nat) | AskText(maximum: nat)

  // The answer to a request on the unread bytes.
  function Answer(request: Request, rest: Bytes): (r: Result<Item>) {
    match request
    case AskInteger(width) =>
      if |rest| < width then Err(InsufficientData) else Ok(Integer(width, Value(rest[..width])))
    case AskRaw(count) =>
      if count > |rest| then Err(InsufficientData) else Ok(Raw(rest[..count]))
    case AskText(maximum) =>
      if |rest| < 4 then Err(InsufficientData)
      else
        var size := Value(rest[..4]);
        if size > maximum then Err(LimitExceeded)
        else if size > |rest| - 4 then Err(InsufficientData)
        else Ok(Text(rest[4..4 + size]))
  }

  class BinaryReader {
    const bytes: Bytes
    var position: nat

    ghost predicate Valid()
      reads this
    {
      position <= |bytes|
    }

    ghost function Rest(): (r: Bytes)
      requires Valid()
      reads this
    {
      bytes[position..]
    }

    constructor (bytes: Bytes)
      ensures Valid() && this.bytes == bytes && position == 0 && Rest() == bytes
    {
      this.bytes := bytes;
      position := 0;
    }

    function Remaining(): (n: nat)
      requires Valid()
      reads this
      ensures n == |Rest()|
    {
      |bytes| - position
    }

    method Read(width: nat) returns (r: Result<nat>)
      modifies this
      requires Valid()
      ensures Valid()
      ensures r == if width <= |old(Rest())| then Ok(Value(old(Rest())[..width])) else Err(InsufficientData)
      ensures position == old(position) + if r.Ok? then width else 0
    {
      if Remaining() < width {
        return Err(InsufficientData);
      }
      var value := ReadBigEndian(bytes, position, width);
      assert bytes[position..][..width] == bytes[position..position + width];
      position := position + width;
      return Ok(value);
    }

    method ReadBytes(count: nat) returns (r: Result<Bytes>)
      modifies this
      requires Valid()
      ensures Valid()
      ensures r == if count <= |old(Rest())| then Ok(old(Rest())[..count]) else Err(InsufficientData)
      ensures position == old(position) + if r.Ok? then count else 0
    {
      if count > Remaining() {
        return Err(InsufficientData);
      }
      var result := bytes[position..position + count];
      assert bytes[position..][..count] == result;
      position := position + count;
      return Ok(result);
    }

    method ReadString(maximum: nat) returns (r: Result<Bytes>)
      modifies this
      requires Valid()
      ensures Valid()
      ensures r.Ok? <==>
                && |old(Rest())| >= 4
                && Value(old(Rest())[..4]) <= maximum
                && 4 + Value(old(Rest())[..4]) <= |old(Rest())|
      ensures r.Ok? ==> r.value == old(Rest())[4..4 + Value(old(Rest())[..4])]
      ensures r.Err? ==> r.error == if |old(Rest())| >= 4 && Value(old(Rest())[..4]) > maximum
                                    then LimitExceeded else InsufficientData
      ensures position == old(position) + if r.Ok? then 4 + |r.value| else 0
    {
      if Remaining() < 4 {
        return Err(InsufficientData);
      }
      var size := ReadBigEndian(bytes, position, 4);
      assert bytes[position..][..4] == bytes[position..position + 4];
      if size > maximum {
        return Err(LimitExceeded);
      }
      if size > Remaining() - 4 {
        return Err(InsufficientData);
      }
      position := position + 4;
      var result := bytes[position..position + size];
      assert bytes[position - 4..][4..4 + size] == result;
      position := position + size;
      return Ok(result);
    }
  }

  // The bytes a request consumes are exactly the image of the item it returns.
  method ReadItem(reader: BinaryReader, request: Request) returns (r: Result<Item>)
    modifies reader
    requires reader.Valid()
    ensures reader.Valid()
    ensures r == Answer(request, old(reader.Rest()))
    ensures old(reader.Rest()) == (if r.Ok? then Image(r.value) else []) + reader.Rest()
  {
    ghost var rest := reader.Rest();
    match request {
      case AskInteger(width) =>
        var value := reader.Read(width);
        r := if value.Ok? then Ok(Integer(width, value.value)) else Err(value.error);
      case AskRaw(count) =>
        var bytes := reader.ReadBytes(count);
        r := if bytes.Ok? then Ok(Raw(bytes.value)) else Err(bytes.error);
      case AskText(maximum) =>
        var bytes := reader.ReadString(maximum);
        r := if bytes.Ok? then Ok(Text(bytes.value)) else Err(bytes.error);
    }
    if r.Ok? {
      AnswerExact(request, rest, r.value);
    }
  }

  // ---------- Reading back what was written ----------

  // The request an item answers.
  ghost predicate Asks(request: Request, item: Item) {
    match request
    case AskInteger(width) => item.Integer? && item.width == width && item.value < Pow256(width)
    case AskRaw(count) => item.Raw? && |item.bytes| == count
    case AskText(maximum) => item.Text? && |item.bytes| <= maximum && |item.bytes| <= U32_MAX
  }

  /** A read succeeds exactly when the unread bytes start with the image of an item it asks for. */
  lemma AnswerExact(request: Request, rest: Bytes, item: Item)
    ensures Answer(request, rest) == Ok(item) <==> Asks(request, item) && Image(item) <= rest
  {
    match request
    case AskRaw(count) =>
      if Asks(request, item) && Image(item) <= rest {
        assert rest[..count] == item.bytes;
      }
    case AskInteger(width) =>
      if |rest| >= width {
        ValueBound(rest[..width]);
        BigEndianOfValue(rest[..width]);
        if Asks(request, item) && Image(item) <= rest {
          assert rest[..width] == BigEndian(item.value, width);
          ValueOfBigEndian(item.value, width);
        }
      }
    case AskText(maximum) =>
      if |rest| >= 4 {
        if Answer(request, rest) == Ok(item) {
          TextAnswerSound(maximum, rest, item);
        }
        if Asks(request, item) && Image(item) <= rest {
          TextAnswerComplete(maximum, rest, item);
        }
      }
  }

  lemma TextAnswerSound(maximum: nat, rest: Bytes, item: Item)
    requires Answer(AskText(maximum), rest) == Ok(item)
    ensures Asks(AskText(maximum), item) && Image(item) <= rest
  {
    hide Value, BigEndian;
    ValueFitsWidth(rest[..4]);
    BigEndianOfValue(rest[..4]);
    JoinSlices(rest, 0, 4, 4 + |item.bytes|);
    assert Image(item) == rest[0..4 + |item.bytes|];
  }

  lemma TextAnswerComplete(maximum: nat, rest: Bytes, item: Item)
    requires Asks(AskText(maximum), item) && Image(item) <= rest
    ensures Answer(AskText(maximum), rest) == Ok(item)
  {
    hide Value, BigEndian;
    Pow256Values();
    ValueOfBigEndian(|item.bytes|, 4);
    SplitSlice(rest, 0, |Image(item)|, BigEndian(|item.bytes|, 4), item.bytes);
    assert rest[..4] == rest[0..4];
  }

  // The items read by a list of requests, and the bytes then left; it stops at the first failure.
  function ReadScript(requests: seq<Request>, rest: Bytes): (r: (seq<Item>, Bytes))
    decreases |requests|
  {
    if requests == [] || Answer(requests[0], rest).Err? then
      ([], rest)
    else
      var item := Answer(requests[0], rest).value;
      AnswerExact(requests[0], rest, item);
      var more := ReadScript(requests[1..], rest[|Image(item)|..]);
      ([item] + more.0, more.1)
  }

  ghost predicate Matching(requests: seq<Request>, items: seq<Item>) {
    |requests| == |items| && forall i :: 0 <= i < |items| ==> Asks(requests[i], items[i])
  }

  /** Matching reads give back the written items, in order, and consume exactly their bytes. */
  lemma {:induction false} ReadsBack(requests: seq<Request>, items: seq<Item>, tail: Bytes)
    requires Matching(requests, items)
    ensures ReadScript(requests, Flatten(Image, items) + tail) == (items, tail)
    decreases |items|
  {
    hide Image, Answer;
    if items == [] {
      assert Flatten(Image, items) + tail == tail;
    } else {
      var first, others := Image(items[0]), Flatten(Image, items[1..]) + tail;
      Reassociate(first, Flatten(Image, items[1..]), tail);
      AnswerExact(requests[0], first + others, items[0]);
      assert (first + others)[|first|..] == others;
      ReadsBack(requests[1..], items[1..], tail);
      assert [items[0]] + items[1..] == items;
    }
  }

  lemma {:induction false} KeptFits(limit: nat, size: nat, items: seq<Item>)
    requires size <= limit
    ensures size + |Flatten(Image, Kept(limit, size, items))| <= limit
    ensures forall item :: item in Kept(limit, size, items) ==> item in items && Representable(item)
    decreases |items|
  {
    if items != [] {
      KeptStep(limit, size, items);
      var more := |Image(items[0])|;
      if Representable(items[0]) && size + more <= limit {
        KeptFits(limit, size + more, items[1..]);
      } else {
        KeptFits(limit, size, items[1..]);
      }
    }
  }

  // The request that reads an item back.
  function RequestFor(item: Item): (r: Request) {
    match item
    case Integer(width, _) => AskInteger(width)
    case Raw(bytes) => AskRaw(|bytes|)
    case Text(_) => AskText(U32_MAX)
  }

  /**
    Whatever script is written on a fresh writer, its bytes stay within the limit and reading back
    the accepted items returns them all and leaves nothing unread.
    */
  lemma ScriptRoundTrip(limit: nat, items: seq<Item>)
    requires forall item :: item in items ==> item.WellTyped()
    ensures var kept := Kept(limit, 0, items);
            var written := Flatten(Image, kept);
            && |written| <= limit
            && ReadScript(RequestsFor(kept), written) == (kept, [])
  {
    var kept := Kept(limit, 0, items);
    var requests := RequestsFor(kept);
    KeptFits(limit, 0, items);
    forall i | 0 <= i < |kept|
      ensures Asks(requests[i], kept[i])
    {
      assert kept[i] in kept;
      assert kept[i].WellTyped() && Representable(kept[i]);
    }
    ReadsBack(requests, kept, []);
    assert Flatten(Image, kept) + [] == Flatten(Image, kept);
  }

  /** The reader run on a script of requests computes `ReadScript`, stopping at the first failure. */
  method ReadItems(reader: BinaryReader, requests: seq<Request>) returns (items: seq<Item>)
    modifies reader
    requires reader.Valid()
    ensures reader.Valid()
    ensures (items, reader.Rest()) == ReadScript(requests, old(reader.Rest()))
  {
    hide Image, Answer;
    items := [];
    ghost var all := ReadScript(requests, reader.Rest());
    assert requests[0..] == requests;
    for i := 0 to |requests|
      invariant reader.Valid()
      invariant all.0 == items + ReadScript(requests[i..], reader.Rest()).0
      invariant all.1 == ReadScript(requests[i..], reader.Rest()).1
    {
      ghost var rest := reader.Rest();
      var r := ReadItem(reader, requests[i]);
      ReadScriptStep(requests[i..], rest, items);
      if r.Err? {
        return;
      }
      assert requests[i..][1..] == requests[i + 1..];
      assert rest[|Image(r.value)|..] == reader.Rest();
      items := items + [r.value];
    }
    assert items + [] == items;
  }

  lemma ReadScriptStep(requests: seq<Request>, rest: Bytes, before: seq<Item>)
    requires requests != []
    ensures var r := Answer(requests[0], rest);
            if r.Err? then ReadScript(requests, rest) == ([], rest) && before + [] == before
            else
              && |Image(r.value)| <= |rest|
              && var more := ReadScript(requests[1..], rest[|Image(r.value)|..]);
                 && before + ReadScript(requests, rest).0 == (before + [r.value]) + more.0
                 && ReadScript(requests, rest).1 == more.1
  {
    if Answer(requests[0], rest).Ok? {
      AnswerExact(requests[0], rest, Answer(requests[0], rest).value);
    }
  }

  // The requests that read accepted items back.
  function RequestsFor(items: seq<Item>): (r: seq<Request>) {
    seq(|items|, i requires 0 <= i < |items| => RequestFor(items[i]))
  }

  // The items of a script whose result was success.
  function Accepted(items: seq<Item>, results: seq<bool>): (r: seq<Item>)
    requires |items| == |results|
  {
    if items == [] then [] else (if results[0] then [items[0]] else []) + Accepted(items[1..], results[1..])
  }

  lemma {:induction false} AcceptedAreKept(limit: nat, size: nat, items: seq<Item>)
    ensures |Verdicts(limit, size, items)| == |items|
    ensures Accepted(items, Verdicts(limit, size, items)) == Kept(limit, size, items)
    decreases |items|
  {
    if items != [] {
      var more := |Image(items[0])|;
      if Representable(items[0]) && size + more <= limit {
        AcceptedAreKept(limit, size + more, items[1..]);
      } else {
        AcceptedAreKept(limit, size, items[1..]);
      }
    }
  }

  /** Writer and reader objects composed: the reader returns every item whose write succeeded, and ends empty. */
  method WriteThenRead(limit: Size, items: seq<Item>) returns (results: seq<bool>, back: seq<Item>, empty: bool)
    requires forall item :: item in items ==> item.WellTyped()
    ensures |results| == |items| && back == Accepted(items, results) && empty
  {
    hide Image, Kept, Verdicts, ReadScript, Accepted, Answer;
    var writer := new BinaryWriter(limit);
    results := writer.WriteScript(items);
    AcceptedAreKept(limit, 0, items);
    ScriptRoundTrip(limit, items);
    var kept := Accepted(items, results);
    assert [] + Flatten(Image, kept) == Flatten(Image, kept);
    var reader := new BinaryReader(writer.bytes);
    back := ReadItems(reader, RequestsFor(kept));
    empty := reader.Remaining() == 0;
  }
}
