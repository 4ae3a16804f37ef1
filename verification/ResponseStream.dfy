/** Response bodies on their way through the proxy (src/mitm/flow/dispatcher.rs): probed up to a
    threshold, and re-emitted as prefix and rest. */
module ResponseStream {
  import opened Wrappers
  import opened Hexdump

  datatype Frame = Data(bytes: seq<Byte>) | Trailers

  /** What a body has in store: frames, moments at which it is not ready, and possibly an error. */
  datatype Item = Ready(frame: Frame) | Failure | Pending

  datatype Poll = Frame(frame: Frame) | Error | NotReady | End

  function FrameData(item: Item): seq<Byte> {
    if item.Ready? && item.frame.Data? then item.frame.bytes else []
  }

  /** All data bytes, in order. */
  function DataOf(items: seq<Item>): seq<Byte> {
    if items == [] then [] else FrameData(items[0]) + DataOf(items[1..])
  }

  predicate IsErrorFree(items: seq<Item>) {
    Failure !in items
  }

  /** What comes before the first error. */
  function BeforeError(items: seq<Item>): seq<Item> {
    if items == [] || items[0].Failure? then [] else [items[0]] + BeforeError(items[1..])
  }

  lemma {:induction false} DataOfConcat(a: seq<Item>, b: seq<Item>)
    ensures DataOf(a + b) == DataOf(a) + DataOf(b)
  {
    if a == [] {
      assert a + b == b;
    } else {
      assert (a + b)[1..] == a[1..] + b;
      DataOfConcat(a[1..], b);
    }
  }

  // ----- a body

  class Body {
    var items: seq<Item>

    constructor (items: seq<Item>)
      ensures this.items == items
    {
      this.items := items;
    }

    /** Polls once. */
    method PollFrame() returns (poll: Poll)
      modifies this
      ensures old(items) == [] ==> items == [] && poll == End
      ensures old(items) != [] ==> items == old(items)[1..] && poll == PollOf(old(items)[0])
    {
      if items == [] {
        return End;
      }
      poll := PollOf(items[0]);
      items := items[1..];
    }
  }

  function PollOf(item: Item): Poll {
    match item
    case Ready(frame) => Frame(frame)
    case Failure => Error
    case Pending => NotReady
  }

  lemma {:induction false} BeforeErrorSplit(a: seq<Item>, b: seq<Item>)
    requires IsErrorFree(a)
    ensures BeforeError(a + b) == a + BeforeError(b)
  {
    if a == [] {
      assert a + b == b;
    } else {
      assert a[0] in a;
      assert (a + b)[1..] == a[1..] + b;
      BeforeErrorSplit(a[1..], b);
    }
  }

  // ----- probing

  datatype Probed = Collected(bytes: seq<Byte>) | Stream(prefix: seq<Byte>, rest: Body)

  /** The prefix is the data of the shortest run of items whose data exceeds the threshold, and the
      rest is what follows them. */
  ghost predicate IsShortestExceeding(items: seq<Item>, prefix: seq<Byte>, rest: seq<Item>, threshold: nat) {
    exists n ::
      && 0 < n <= |items| && rest == items[n..] && prefix == DataOf(items[..n])
      && |prefix| > threshold && IsErrorFree(items[..n])
      && forall i :: 0 <= i < n ==> |DataOf(items[..i])| <= threshold
  }

  lemma DataOfSnoc(taken: seq<Item>, item: Item)
    ensures DataOf(taken + [item]) == DataOf(taken) + FrameData(item)
  {
    DataOfConcat(taken, [item]);
    assert [item][1..] == [];
    assert FrameData(item) + [] == FrameData(item);
  }

  /** One more item: an error ends the data, anything else extends it. */
  lemma OneMoreItem(items: seq<Item>, n: nat)
    requires n < |items| && IsErrorFree(items[..n])
    ensures items[n].Failure? ==> BeforeError(items) == items[..n]
    ensures !items[n].Failure? ==>
      IsErrorFree(items[..n + 1]) && DataOf(items[..n + 1]) == DataOf(items[..n]) + FrameData(items[n])
  {
    assert items == items[..n] + items[n..];
    BeforeErrorSplit(items[..n], items[n..]);
    DataOfSnoc(items[..n], items[n]);
    assert items[..n + 1] == items[..n] + [items[n]];
  }

  /** A body whose data stays within the threshold is collected whole, up to its first error; any
      other one is handed on as its shortest exceeding prefix and the rest. */
  method ProbeResponseBody(body: Body, threshold: nat) returns (r: Probed)
    modifies body
    ensures match r
      case Collected(bytes) => bytes == DataOf(BeforeError(old(body.items))) && |bytes| <= threshold
      case Stream(prefix, rest) =>
        rest == body && IsShortestExceeding(old(body.items), prefix, body.items, threshold)
  {
    ghost var items := body.items;
    ghost var n := 0;
    var buffered: seq<Byte> := [];
    while true
      invariant n <= |items| && body.items == items[n..] && buffered == DataOf(items[..n]) && IsErrorFree(items[..n])
      invariant forall i :: 0 <= i <= n ==> |DataOf(items[..i])| <= threshold
      decreases |items| - n
    {
      if n < |items| {
        OneMoreItem(items, n);
      } else {
        assert items[..n] == items;
        ErrorFreeWhole(items);
      }
      var poll := body.PollFrame();
      if poll.End? || poll.Error? {
        return Collected(buffered);
      }
      n := n + 1;
      if poll.Frame? && poll.frame.Data? {
        buffered := buffered + poll.frame.bytes;
        if |buffered| > threshold {
          return Stream(buffered, body);
        }
      }
    }
  }

  // ----- re-emitting

  class PrefixThenBody {
    var prefix: Option<seq<Byte>>
    const rest: Body

    constructor (prefix: seq<Byte>, rest: Body)
      ensures this.prefix == Some(prefix) && this.rest == rest
    {
      this.prefix, this.rest := Some(prefix), rest;
    }

    /** Everything that is still to come. */
    ghost function Items(): seq<Item>
      reads this, rest
    {
      (if prefix.Some? then [Ready(Data(prefix.value))] else []) + rest.items
    }

    /** The prefix comes first and only once; then the rest is polled. */
    method PollFrame() returns (poll: Poll)
      modifies this, rest
      ensures old(Items()) == [] ==> Items() == [] && poll == End
      ensures old(Items()) != [] ==> Items() == old(Items())[1..] && poll == PollOf(old(Items())[0])
    {
      if prefix.Some? {
        poll := Frame(Data(prefix.value));
        prefix := None;
        return;
      }
      poll := rest.PollFrame();
    }

    predicate IsEndStream()
      reads this, rest
      ensures IsEndStream() <==> Items() == []
    {
      prefix.None? && rest.items == []
    }

    /** Polls until the end or an error and puts the data together. */
    method Drain() returns (bytes: seq<Byte>)
      modifies this, rest
      ensures bytes == DataOf(BeforeError(old(Items())))
    {
      bytes := [];
      ghost var items := Items();
      ghost var n := 0;
      while true
        invariant n <= |items| && Items() == items[n..] && bytes == DataOf(items[..n]) && IsErrorFree(items[..n])
        decreases |items| - n
      {
        if n < |items| {
          OneMoreItem(items, n);
        } else {
          assert items[..n] == items;
          ErrorFreeWhole(items);
        }
        var poll := PollFrame();
        if poll.End? || poll.Error? {
          return;
        }
        n := n + 1;
        if poll.Frame? && poll.frame.Data? {
          bytes := bytes + poll.frame.bytes;
        }
      }
    }
  }

  /** Probing and re-emitting neither loses, repeats nor reorders a byte. */
  method ForwardProbed(body: Body, threshold: nat) returns (bytes: seq<Byte>)
    modifies body
    ensures bytes == DataOf(BeforeError(old(body.items)))
  {
    ghost var items := body.items;
    var probed := ProbeResponseBody(body, threshold);
    match probed {
      case Collected(collected) => return collected;
      case Stream(prefix, rest) =>
        var stream := new PrefixThenBody(prefix, rest);
        ghost var n :| 0 < n <= |items| && rest.items == items[n..]
          && prefix == DataOf(items[..n]) && IsErrorFree(items[..n]);
        PrefixConserves(items, n);
        bytes := stream.Drain();
    }
  }

  /** Replacing a run of items by one frame with its data keeps the data. */
  lemma PrefixConserves(items: seq<Item>, n: nat)
    requires n <= |items| && IsErrorFree(items[..n])
    ensures DataOf(BeforeError([Ready(Data(DataOf(items[..n])))] + items[n..])) == DataOf(BeforeError(items))
  {
    var prefix := [Ready(Data(DataOf(items[..n])))];
    assert items == items[..n] + items[n..];
    BeforeErrorSplit(items[..n], items[n..]);
    BeforeErrorSplit(prefix, items[n..]);
    DataOfConcat(items[..n], BeforeError(items[n..]));
    DataOfConcat(prefix, BeforeError(items[n..]));
    DataOfSnoc([], prefix[0]);
    assert [] + prefix == prefix && [] + DataOf(items[..n]) == DataOf(items[..n]);
  }

  lemma {:induction false} ErrorFreeWhole(items: seq<Item>)
    requires IsErrorFree(items)
    ensures BeforeError(items) == items
  {
    BeforeErrorSplit(items, []);
    assert items + [] == items;
  }
}
