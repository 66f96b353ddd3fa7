/** A whole connection's output decodes uniquely. */
module ResponseStream {
  import opened Bytes
  import opened Responses

  /** A response together with the server's decision to leave its body out. */
  datatype Exchange = Exchange(resp: Response, omitBody: bool)

  ghost predicate Complete(e: Exchange) { WellBuilt(e.resp) && (e.omitBody || Whole(e.resp.body)) }

  function ExchangeWire(e: Exchange): bytes { Wire(e.resp, e.omitBody) }

  function WireAll(es: seq<Exchange>): bytes {
    if es == [] then [] else ExchangeWire(es[0]) + WireAll(es[1..])
  }

  function ReplyOf(e: Exchange): Reply { Reply(Head(e.resp), Payload(e.resp, e.omitBody)) }

  /** Frames responses off a stream as long as it can; the rest is what it could not frame. */
  function DecodeAll(s: bytes, omits: seq<bool>): (seq<Reply>, bytes)
    decreases |omits|
  {
    if omits == [] then ([], s)
    else match DecodeOne(s, omits[0])
      case None => ([], s)
      case Some((reply, k)) =>
        if k > |s| then ([], s)
        else
          var (replies, rest) := DecodeAll(s[k..], omits[1..]);
          ([reply] + replies, rest)
  }

  function Omits(es: seq<Exchange>): (r: seq<bool>)
    ensures |r| == |es| && forall i :: 0 <= i < |es| ==> r[i] == es[i].omitBody
  {
    seq(|es|, i requires 0 <= i < |es| => es[i].omitBody)
  }

  function Replies(es: seq<Exchange>): (r: seq<Reply>)
    ensures |r| == |es| && forall i :: 0 <= i < |es| ==> r[i] == ReplyOf(es[i])
  {
    seq(|es|, i requires 0 <= i < |es| => ReplyOf(es[i]))
  }

  lemma {:induction false} WireAllSnoc(es: seq<Exchange>, e: Exchange)
    ensures WireAll(es + [e]) == WireAll(es) + ExchangeWire(e)
  {
    hide ExchangeWire;
    if es == [] {
      assert es + [e] == [e];
      assert [e][1..] == [];
      assert WireAll([e]) == ExchangeWire(e) + [];
    } else {
      WireAllSnoc(es[1..], e);
      assert (es + [e])[1..] == es[1..] + [e];
    }
  }

  lemma RepliesCons(es: seq<Exchange>, more: seq<Reply>)
    requires es != []
    ensures Replies(es) + more == [ReplyOf(es[0])] + (Replies(es[1..]) + more)
  {
    hide ReplyOf;
  }

  lemma OneDecodes(e: Exchange, rest: bytes)
    requires Complete(e)
    ensures DecodeOne(ExchangeWire(e) + rest, e.omitBody) == Some((ReplyOf(e), |ExchangeWire(e)|))
  {
    hide DecodeOne, Wire, WellBuilt;
    WireDecodes(e.resp, e.omitBody, rest);
  }

  /** Complete responses are taken off one by one, and decoding goes on with whatever follows them. */
  lemma {:induction false} DecodePrefix(es: seq<Exchange>, rest: bytes, more: seq<bool>)
    requires forall i :: 0 <= i < |es| ==> Complete(es[i])
    ensures DecodeAll(WireAll(es) + rest, Omits(es) + more) ==
            (Replies(es) + DecodeAll(rest, more).0, DecodeAll(rest, more).1)
    decreases |es|
  {
    hide DecodeOne, Wire, ReplyOf, Complete;
    var s, omits := WireAll(es) + rest, Omits(es) + more;
    if es == [] {
      assert s == rest && omits == more;
      assert Replies(es) + DecodeAll(rest, more).0 == DecodeAll(rest, more).0;
    } else {
      var w, behind := ExchangeWire(es[0]), WireAll(es[1..]) + rest;
      assert s == w + behind;
      OneDecodes(es[0], behind);
      assert s[|w|..] == behind;
      assert omits[1..] == Omits(es[1..]) + more;
      DecodePrefix(es[1..], rest, more);
      RepliesCons(es, DecodeAll(rest, more).0);
    }
  }

  lemma NothingDecodes(s: bytes, flag: bool)
    requires DecodeOne(s, flag) == None
    ensures DecodeAll(s, [flag]) == ([], s)
  {}

  lemma NoFlags(s: bytes)
    ensures DecodeAll(s, []) == ([], s)
  {}

  lemma OneReply(s: bytes, flag: bool, reply: Reply, k: nat)
    requires DecodeOne(s, flag) == Some((reply, k)) && k <= |s|
    ensures DecodeAll(s, [flag]) == ([reply], s[k..])
  {
    hide DecodeOne;
    assert [flag][1..] == [];
    NoFlags(s[k..]);
    assert [reply] + [] == [reply];
  }

  /** Response stream decodability: complete responses followed by at most one truncated response
      are framed back, by Content-Length alone, to exactly those responses, and the truncated one is
      recognised as such. */
  lemma StreamDecodes(es: seq<Exchange>, last: Exchange, k: nat)
    requires forall i :: 0 <= i < |es| ==> Complete(es[i])
    requires WellBuilt(last.resp) && k <= |ExchangeWire(last)| && k < DeclaredSize(last.resp, last.omitBody)
    ensures DecodeAll(WireAll(es) + ExchangeWire(last)[..k], Omits(es) + [last.omitBody]) ==
            (Replies(es), ExchangeWire(last)[..k])
  {
    hide DecodeOne, Wire, WellBuilt, DecodeAll, WireAll, Omits, Replies;
    var tail := ExchangeWire(last)[..k];
    TruncationDetected(last.resp, last.omitBody, k);
    DecodePrefix(es, tail, [last.omitBody]);
    NothingDecodes(tail, last.omitBody);
    assert Replies(es) + [] == Replies(es);
  }

  /** Without a truncated last response nothing is left over. */
  lemma WholeStreamDecodes(es: seq<Exchange>)
    requires forall i :: 0 <= i < |es| ==> Complete(es[i])
    ensures DecodeAll(WireAll(es), Omits(es)) == (Replies(es), [])
  {
    hide DecodeAll, WireAll, Complete, Replies;
    DecodePrefix(es, [], []);
    assert DecodeAll([], []) == ([], []) by { NoFlags([]); }
    assert WireAll(es) + [] == WireAll(es);
    assert Omits(es) + [] == Omits(es);
    assert Replies(es) + [] == Replies(es);
  }
}
