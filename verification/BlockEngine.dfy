/** The two ends of a block-wise transfer as they run: the server's answer to one request, and the
    client's loop over blocks. */
module BlockEngine {
  import opened LinkFormat
  import opened LinkFormatHandler

  /** The handler and the payload it sets: a chunk of what it counted, or an error text; only the block
      of it that is sent is given, with the length it was set to. */
  method Handle(resources: seq<Resource>, size: nat, offset: nat)
    returns (ok: bool, payload: string, length: nat, next: int)
    requires 16 <= size <= CHUNK_SIZE
    ensures var text := Document(resources);
            && next == NextOffset(|text|, offset, size)
            && (ok <==> offset < |text| || text == "")
            && payload == (if ok then Window(text, offset, size) else OUT_OF_SCOPE)
            && (next == -1 ==> length <= size)
  {
    hide Document;
    var handler := new Handler(size, offset);
    next := handler.Get(resources);
    ok, payload, length := true, "", 0;
    if handler.bufpos > 0 {
      length := Min(CHUNK_SIZE, handler.bufpos);
      payload := handler.buffer[..Min(handler.bufpos, size)];
    } else if handler.strpos > 0 {
      ok, payload := false, OUT_OF_SCOPE;
      length := |payload|;
    }
  }

  /** The request branch of coap_receive for the list of resources. */
  method Serve(resources: seq<Resource>, block: Option<(nat, nat)>, max: nat) returns (a: Answer)
    requires 16 <= max <= CHUNK_SIZE && (block.Some? ==> block.value.1 >= 16)
    ensures a == Respond(Document(resources), block, max)
  {
    var num, size, offset := 0, max, 0;
    if block.Some? {
      num := block.value.0;
      offset := num * block.value.1 % OFFSET_RANGE;
      size := Min(block.value.1, max);
    }
    hide Document, Window, Respond, NextOffset, Min;
    var ok, payload, length, next := Handle(resources, size, offset);
    var more := next != -1 || (block.Some? && length > size);
    RespondIs(Document(resources), block, max, num, size, offset, ok, payload, next, length);
    return Answer(ok, payload, num, more, size);
  }

  lemma RespondIs(text: string, block: Option<(nat, nat)>, max: nat, num: nat, size: nat, offset: nat,
                                     ok: bool, payload: string, next: int, length: nat)
    requires 16 <= max && 16 <= size
    requires block.None? ==> num == 0 && size == max && offset == 0
    requires block.Some? ==>
      num == block.value.0 && size == Min(block.value.1, max) && offset == Offset(block.value.0, block.value.1)
    requires next == NextOffset(|text|, offset, size) && (ok <==> offset < |text| || text == "")
    requires payload == (if ok then Window(text, offset, size) else OUT_OF_SCOPE) && (next == -1 ==> length <= size)
    ensures Respond(text, block, max) == Answer(ok, payload, num, next != -1 || (block.Some? && length > size), size)
  {
    hide Window;
    assert payload[..|payload|] == payload && |payload| <= size;
    var asked := if block.Some? then block.value.1 else max;
    assert Offset(num, asked) == offset;
  }

  /** The loop of coap_blocking_request, when every request is answered: what the callback was given,
      in order. */
  method BlockingRequest(resources: seq<Resource>, asked: nat, max: nat) returns (received: string)
    requires 16 <= max <= CHUNK_SIZE && 16 <= asked <= MAX_BLOCK && |Document(resources)| < DOCUMENT_LIMIT
    ensures received == Collect(Document(resources), asked, max)
    ensures received == Document(resources) <==> asked == max || |Document(resources)| <= max
  {
    ghost var text := Document(resources);
    hide Document, Respond, CollectFrom, Collect, Part;
    TransferIsComplete(text, asked, max);
    CollectBegins(text, asked, max);
    ghost var all := Collect(text, asked, max);
    var a := Serve(resources, None, max);
    received := Part(a);
    var more, num := a.more, 1;
    while more
      invariant 1 <= num <= |text| + 1 && (more ==> num <= |text| && Asking(text, asked, num))
      invariant all == if more then received + CollectFrom(text, asked, max, num) else received
      decreases |text| + 1 - num
    {
      CollectStep(text, asked, max, num);
      a := Serve(resources, Some((num, asked)), max);
      if a.more {
        MoreIsBefore(text, asked, max, num);
        Behind(received, Part(a), CollectFrom(text, asked, max, num + 1));
      }
      received := received + Part(a);
      more := a.more;
      num := num + 1;
    }
  }

  lemma Behind(a: string, b: string, c: string)
    ensures a + (b + c) == (a + b) + c
  {
  }

  lemma CollectBegins(text: string, asked: nat, max: nat)
    requires |text| < DOCUMENT_LIMIT && 16 <= asked <= MAX_BLOCK && max >= 16
    ensures var a := Respond(text, None, max);
            && (a.more ==> |text| >= 1) && Asking(text, asked, 1)
            && Collect(text, asked, max) == if a.more then Part(a) + CollectFrom(text, asked, max, 1) else Part(a)
  {
    FirstAnswer(text, max);
    hide Respond, CollectFrom, Part;
  }
}
