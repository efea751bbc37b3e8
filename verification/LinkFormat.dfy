/** Block-wise transfer of the list of resources (section 2 of RFC 6690, section 2.2 of RFC 7959): the
    window that a handler writes, the answer made of it, and the client that asks for one block after
    another. */
module LinkFormat {

  const CHUNK_SIZE: nat := 64
  const MAX_BLOCK: nat := 2048

  /** Offsets are 32-bit words, and a document is shorter than half of their range. */
  const OFFSET_RANGE: nat := 0x1_0000_0000
  const DOCUMENT_LIMIT: nat := 0x8000_0000

  datatype Option<+T> = None | Some(value: T)

  datatype Resource = Resource(url: string, attributes: Option<string>)

  predicate HasAttributes(r: Resource) { r.attributes.Some? && r.attributes.value != "" }

  /** A link: the target and, behind a semicolon, the attributes. */
  function Entry(r: Resource): (s: string)
    ensures |s| >= 3
  {
    "</" + r.url + ">" + if HasAttributes(r) then ";" + r.attributes.value else ""
  }

  /** The links of the first `i` resources, with commas between them. */
  function Links(resources: seq<Resource>, i: nat): (s: string)
    requires i <= |resources|
    ensures i > 0 ==> s != ""
  {
    if i == 0 then "" else
    Links(resources, i - 1) + (if i > 1 then "," else "") + Entry(resources[i - 1])
  }

  function Document(resources: seq<Resource>): (s: string) { Links(resources, |resources|) }

  lemma {:induction false} LinksGrow(resources: seq<Resource>, i: nat, j: nat)
    requires i <= j <= |resources|
    ensures Links(resources, i) <= Links(resources, j)
    decreases j
  {
    if i < j {
      LinksGrow(resources, i, j - 1);
    }
  }

  // ----------------------------------------------------------------- windows

  function Min(a: nat, b: nat): (r: nat) { if a < b then a else b }

  /** How much of a text is in the window of some size at an offset. */
  function Fill(length: nat, offset: nat, size: nat): (n: nat)
    ensures n <= size && (n > 0 ==> offset + n <= length)
  {
    if length <= offset then 0 else Min(size, length - offset)
  }

  function Window(text: string, offset: nat, size: nat): (s: string)
    ensures |s| == Fill(|text|, offset, size)
  {
    if |text| <= offset then "" else text[offset..offset + Fill(|text|, offset, size)]
  }

  /** The offset that a handler leaves: -1 when the text ends in the window. */
  function NextOffset(length: nat, offset: nat, size: nat): (r: int) {
    if length <= offset + size then -1 else offset + size
  }

  // ----------------------------------------------------------------- answers

  datatype Answer = Answer(ok: bool, payload: string, num: nat, more: bool, size: nat)

  const OUT_OF_SCOPE: string := "BlockOutOfScope"

  /** The offset of a block, as it is computed when the option is parsed. */
  function Offset(num: nat, asked: nat): (o: nat)
    ensures o < OFFSET_RANGE
  {
    (num * asked) % OFFSET_RANGE
  }

  /** What the engine sends for a document, asked for a block of some size or for no block in
      particular; `max` is its own largest block. */
  function Respond(text: string, block: Option<(nat, nat)>, max: nat): (a: Answer) {
    var (num, asked) := if block.Some? then block.value else (0, max);
    var size := Min(asked, max);
    var offset := Offset(num, asked);
    var ok := offset < |text| || text == "";
    var payload := if ok then Window(text, offset, size) else OUT_OF_SCOPE;
    Answer(ok, payload[..Min(|payload|, size)], num, NextOffset(|text|, offset, size) != -1 || |payload| > size, size)
  }

  /** What a block of an answer adds to what the client has: its payload, if it is content. */
  function Part(a: Answer): (s: string) { if a.ok then a.payload else "" }

  /** A transfer of a document in blocks of `asked` bytes has come to a number whose offset is a word. */
  predicate Asking(text: string, asked: nat, num: nat) {
    && |text| < DOCUMENT_LIMIT && 16 <= asked <= MAX_BLOCK
    && num * asked < OFFSET_RANGE
  }

  lemma MoreIsBefore(text: string, asked: nat, max: nat, num: nat)
    requires Asking(text, asked, num) && max >= 16 && Respond(text, Some((num, asked)), max).more
    ensures num * asked + Min(asked, max) < |text| && num < |text| && Asking(text, asked, num + 1)
  {
    OffsetInRange(num, asked);
    NextBlock(num, asked);
    Product(num, num, 1, asked);
    hide Offset, Window;
  }

  /** The payloads that a client collects which asks for blocks of `asked` bytes from number `num` on,
      until an answer says that no more follow; every request is answered. */
  function CollectFrom(text: string, asked: nat, max: nat, num: nat): (r: string)
    requires Asking(text, asked, num) && max >= 16
    decreases |text| - num
  {
    var a := Respond(text, Some((num, asked)), max);
    if !a.more then Part(a) else
    MoreIsBefore(text, asked, max, num);
    Part(a) + CollectFrom(text, asked, max, num + 1)
  }

  /** coap_blocking_request: the first request asks for no block in particular. */
  function Collect(text: string, asked: nat, max: nat): (r: string)
    requires |text| < DOCUMENT_LIMIT && 16 <= asked <= MAX_BLOCK && max >= 16
  {
    var a := Respond(text, None, max);
    if !a.more then Part(a) else Part(a) + CollectFrom(text, asked, max, 1)
  }

  // ------------------------------------------------------------ main results

  /** An answer with content has the window at its offset; it says that more follow exactly when the
      text does not end in the window; and there is content unless the offset is beyond the text. For every
      block number that RFC 7959 allows, the offset is that many blocks. */
  lemma AnswerIsWindow(text: string, num: nat, asked: nat, max: nat)
    requires 16 <= asked <= MAX_BLOCK && max >= 16
    ensures var a := Respond(text, Some((num, asked)), max);
            var offset := Offset(num, asked);
            && (a.ok <==> offset < |text| || text == "")
            && (a.ok ==> a.payload == Window(text, offset, Min(asked, max)))
            && (a.more <==> |text| > offset + Min(asked, max))
    ensures num <= 0xFFFFF ==> Offset(num, asked) == num * asked
    ensures Offset(num, asked) == num * asked <==> num * asked < OFFSET_RANGE
  {
    OffsetInRange(num, asked);
    hide Offset;
    var w := Window(text, Offset(num, asked), Min(asked, max));
    assert w[..|w|] == w;
  }

  lemma OffsetInRange(num: nat, asked: nat)
    requires asked <= MAX_BLOCK
    ensures Offset(num, asked) == num * asked <==> num * asked < OFFSET_RANGE
    ensures num <= 0xFFFFF ==> num * asked < OFFSET_RANGE
  {
    Product(num, 0xFFFFF, asked, MAX_BLOCK);
  }

  lemma Product(a: nat, b: nat, c: nat, d: nat)
    requires c <= d
    ensures a <= b ==> a * c <= b * d
  {
    if a <= b {
      assert a * c <= b * c <= b * d;
    }
  }

  lemma NextBlock(num: nat, asked: nat)
    ensures (num + 1) * asked == num * asked + asked
  {
  }

  /** Blocks no larger than the server's are contiguous: they make up the rest of the text. */
  lemma {:induction false} SmallBlocksTile(text: string, asked: nat, max: nat, num: nat)
    requires Asking(text, asked, num) && 16 <= asked <= max && num * asked <= |text|
    ensures CollectFrom(text, asked, max, num) == text[num * asked..]
    decreases |text| - num
  {
    AnswerIsWindow(text, num, asked, max);
    hide Respond, Offset, CollectFrom;
    CollectStep(text, asked, max, num);
    if Respond(text, Some((num, asked)), max).more {
      MoreIsBefore(text, asked, max, num);
      NextBlock(num, asked);
      SmallBlocksTile(text, asked, max, num + 1);
      TextSplits(text, num * asked, asked);
    } else {
      TextEnds(text, num * asked, asked);
    }
  }

  lemma CollectStep(text: string, asked: nat, max: nat, num: nat)
    requires Asking(text, asked, num) && max >= 16
    ensures var a := Respond(text, Some((num, asked)), max);
            && (a.more ==> Asking(text, asked, num + 1))
            && CollectFrom(text, asked, max, num) ==
                 if a.more then Part(a) + CollectFrom(text, asked, max, num + 1) else Part(a)
  {
    if Respond(text, Some((num, asked)), max).more {
      MoreIsBefore(text, asked, max, num);
    }
    hide Respond;
  }

  lemma TextSplits(text: string, at: nat, n: nat)
    requires at + n < |text|
    ensures Window(text, at, n) + text[at + n..] == text[at..]
  {
  }

  lemma TextEnds(text: string, at: nat, n: nat)
    requires at <= |text| <= at + n
    ensures text[at..] == Window(text, at, n) && (at == |text| ==> text[at..] == "")
  {
  }

  /** Blocks larger than the server's leave gaps. */
  lemma {:induction false} LargeBlocksSkip(text: string, asked: nat, max: nat, num: nat)
    requires Asking(text, asked, num) && 16 <= max < asked
    ensures |CollectFrom(text, asked, max, num)| <= if num * asked < |text| then |text| - num * asked else 0
    decreases |text| - num
  {
    AnswerIsWindow(text, num, asked, max);
    hide Respond, Offset, CollectFrom;
    CollectStep(text, asked, max, num);
    if Respond(text, Some((num, asked)), max).more {
      MoreIsBefore(text, asked, max, num);
      NextBlock(num, asked);
      LargeBlocksSkip(text, asked, max, num + 1);
    }
  }

  lemma FirstAnswer(text: string, max: nat)
    requires max >= 16
    ensures var a := Respond(text, None, max);
            a.ok && a.payload == text[..Min(max, |text|)] && (a.more <==> |text| > max)
  {
    assert Offset(0, max) == 0;
    var w := Window(text, 0, max);
    assert w[..|w|] == w == text[..Min(max, |text|)];
  }

  /** What the client collects is the document exactly when it asks for blocks of the server's own
      size, or the document fits the first block. */
  lemma TransferIsComplete(text: string, asked: nat, max: nat)
    requires |text| < DOCUMENT_LIMIT && 16 <= asked <= MAX_BLOCK && max >= 16
    ensures Collect(text, asked, max) == text <==> asked == max || |text| <= max
  {
    FirstAnswer(text, max);
    hide Respond, CollectFrom;
    var r := Collect(text, asked, max);
    if |text| <= max {
      assert text[..|text|] == text;
    } else if asked <= max {
      assert 1 * asked == asked;
      SmallBlocksTile(text, asked, max, 1);
      assert r == text[..max] + text[asked..];
      if asked == max {
        assert text[..max] + text[max..] == text;
      } else {
        assert |r| > |text|;
      }
    } else {
      assert 1 * asked == asked;
      LargeBlocksSkip(text, asked, max, 1);
      assert |r| < |text|;
    }
  }
}
