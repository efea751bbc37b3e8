/** The handler of /.well-known/core as it works in place: it walks over the resources, counts where
    it is in the whole document, and copies what falls into the window at its offset. */
module LinkFormatHandler {
  import opened LinkFormat

  class Handler {
    const buffer: array<char>
    const size: nat
    const offset: nat
    var strpos: nat
    var bufpos: nat

    ghost predicate Valid()
      reads this
    {
      buffer.Length > size > 0
    }

    constructor (size: nat, offset: nat)
      requires size > 0
      ensures Valid() && this.size == size && this.offset == offset && fresh(buffer) && strpos == 0 && bufpos == 0
    {
      this.size, this.offset := size, offset;
      buffer := new char[size + 1](_ => '\0');
      strpos, bufpos := 0, 0;
    }

    /** The document so far is `text`, and the buffer has what of it is in the window. */
    ghost predicate At(text: string)
      reads this, buffer
    {
      && Valid() && strpos == |text| && bufpos == Fill(|text|, offset, size)
      && buffer[..bufpos] == Window(text, offset, size)
    }

    /** ADD_CHAR_IF_POSSIBLE. */
    method AddChar(c: char, ghost text: string)
      requires At(text)
      modifies this`strpos, this`bufpos, buffer
      ensures At(text + [c])
    {
      if strpos >= offset && bufpos < size {
        buffer[bufpos] := c;
        assert buffer[..bufpos + 1] == old(buffer[..bufpos]) + [c];
        bufpos := bufpos + 1;
      }
      strpos := strpos + 1;
      WindowGrows(text, [c], offset, size);
    }

    /** ADD_STRING_IF_POSSIBLE: true when the walk breaks off, with a full buffer. `strict` is the
        comparison for attributes, behind which nothing of a resource follows. */
    method AddString(s: string, strict: bool, ghost text: string) returns (broke: bool)
      requires At(text) && (strict ==> s != "")
      modifies this`strpos, this`bufpos, buffer
      ensures Valid() && broke == (|text + s| > offset && if strict then |text + s| > offset + size else |text + s| >= offset + size)
      ensures !broke ==> At(text + s)
      ensures broke ==> bufpos >= size && buffer[..size] == Window(text + s, offset, size) && strpos == old(strpos)
    {
      WindowGrows(text, s, offset, size);
      if strpos + |s| > offset {
        var skip := if offset > strpos then offset - strpos else 0;
        Print(s[skip..]);
        if if strict then bufpos > size else bufpos >= size {
          return true;
        }
      }
      strpos := strpos + |s|;
      return false;
    }

    /** snprintf into the rest of the buffer, which counts what it would have written. */
    method Print(s: string)
      requires Valid() && bufpos <= size
      modifies this`bufpos, buffer
      ensures bufpos == old(bufpos) + |s|
      ensures buffer[..Min(size, bufpos)] == old(buffer[..bufpos]) + s[..Min(|s|, size - old(bufpos))]
    {
      var n := Min(|s|, size - bufpos);
      var i := 0;
      while i < n
        invariant 0 <= i <= n && bufpos == old(bufpos)
        invariant buffer[..bufpos + i] == old(buffer[..bufpos]) + s[..i]
      {
        buffer[bufpos + i] := s[i];
        assert buffer[..bufpos + i + 1] == old(buffer[..bufpos]) + s[..i] + [s[i]];
        assert s[..i] + [s[i]] == s[..i + 1];
        i := i + 1;
      }
      buffer[bufpos + n] := '\0';
      assert buffer[..bufpos + n] == old(buffer[..bufpos]) + s[..n];
      bufpos := bufpos + |s|;
    }

    /** A comma behind other resources, and the target up to its closing bracket: true when the walk
        breaks off. */
    method AddTarget(url: string, ghost text: string) returns (broke: bool)
      requires At(text)
      modifies this`strpos, this`bufpos, buffer
      ensures var next := text + Opening(text) + url;
              && Valid()
              && (!broke ==> At(next) && |next| < offset + size)
              && (broke ==> |next| >= offset + size && bufpos >= size && buffer[..size] == Window(next, offset, size))
    {
      hide Window, Fill;
      ghost var t := text;
      if strpos > 0 {
        AddChar(',', t);
        t := t + [','];
      }
      AddChar('<', t);
      t := t + ['<'];
      AddChar('/', t);
      t := t + ['/'];
      assert t == text + Opening(text);
      broke := AddString(url, false, t);
    }

    /** One resource: false when the walk breaks off in it. */
    method AddResource(r: Resource, ghost text: string) returns (whole: bool)
      requires At(text)
      modifies this`strpos, this`bufpos, buffer
      ensures var next := text + (if text != "" then "," else "") + Entry(r);
              && Valid()
              && (whole ==> At(next) && |next| <= offset + size)
              && (!whole ==> |next| > offset + size && bufpos >= size && buffer[..size] == Window(next, offset, size))
    {
      hide Window, Fill;
      EntrySplits(r, text);
      ghost var t := text + Opening(text) + r.url;
      var broke := AddTarget(r.url, text);
      hide Opening, Entry;
      if broke {
        WindowIsFull(t, Closing(r), offset, size);
        return false;
      }
      AddChar('>', t);
      t := t + ['>'];
      if r.attributes.Some? && r.attributes.value != "" {
        AddChar(';', t);
        t := t + [';'];
        broke := AddString(r.attributes.value, true, t);
        return !broke;
      }
      return true;
    }

    /** well_known_core_get_handler without filtering: whatever the resources, the buffer holds the
        window of the document at the offset, and the offset left says whether it ends there. The
        last test in the loop never holds. */
    method Get(resources: seq<Resource>) returns (next: int)
      requires At("")
      modifies this`strpos, this`bufpos, buffer
      ensures var text := Document(resources);
              && Valid() && next == NextOffset(|text|, offset, size)
              && Min(bufpos, size) == Fill(|text|, offset, size)
              && buffer[..Min(bufpos, size)] == Window(text, offset, size)
              && (bufpos == 0 <==> |text| <= offset) && (next == -1 ==> bufpos <= size)
              && (bufpos == 0 ==> (strpos == 0 <==> text == ""))
    {
      hide Entry, Window;
      ghost var text := Document(resources);
      var i := 0;
      while i < |resources|
        invariant 0 <= i <= |resources| && At(Links(resources, i)) && |Links(resources, i)| <= offset + size
      {
        ghost var before := Links(resources, i);
        LinksGrow(resources, i + 1, |resources|);
        LinksStep(resources, i);
        hide Links;
        var whole := AddResource(resources[i], before);
        if !whole {
          ghost var part := Links(resources, i + 1);
          assert text == part + text[|part|..];
          WindowIsFull(part, text[|part|..], offset, size);
          return offset + size;
        }
        if bufpos > size && strpos - bufpos > offset {
          assert false;
        }
        i := i + 1;
      }
      next := -1;
    }
  }

  /** What comes before a target. */
  function Opening(text: string): (s: string) { (if text != "" then "," else "") + "</" }

  /** What comes behind a target. */
  function Closing(r: Resource): (s: string)
    ensures s != ""
  {
    [ '>' ] + if HasAttributes(r) then [';'] + r.attributes.value else ""
  }

  lemma EntrySplits(r: Resource, text: string)
    ensures text + (if text != "" then "," else "") + Entry(r) == (text + Opening(text) + r.url) + Closing(r)
    ensures HasAttributes(r) ==>
      (text + Opening(text) + r.url) + Closing(r) == text + Opening(text) + r.url + ['>'] + [';'] + r.attributes.value
    ensures !HasAttributes(r) ==>
      (text + Opening(text) + r.url) + Closing(r) == text + Opening(text) + r.url + ['>']
  {
    var comma := if text != "" then "," else "";
    assert text + comma + Entry(r) == text + (comma + "</") + r.url + Closing(r);
  }

  lemma LinksStep(resources: seq<Resource>, i: nat)
    requires i < |resources|
    ensures Links(resources, i + 1) ==
      Links(resources, i) + (if Links(resources, i) != "" then "," else "") + Entry(resources[i])
  {
    assert i == 0 ==> Links(resources, i) == "";
  }

  /** A window that is full stays so when the text goes on. */
  lemma WindowIsFull(text: string, s: string, offset: nat, size: nat)
    requires |text| >= offset + size
    ensures Window(text + s, offset, size) == Window(text, offset, size)
  {
  }

  /** The window of a longer text, from that of its beginning. */
  lemma WindowGrows(text: string, s: string, offset: nat, size: nat)
    ensures var n := Fill(|text|, offset, size);
            var skip := if offset > |text| then Min(offset - |text|, |s|) else 0;
            Window(text + s, offset, size) == Window(text, offset, size) + s[skip..][..Min(|s| - skip, size - n)]
  {
    if offset >= |text| {
      GrowsBehind(text, s, offset, size);
    } else {
      GrowsInside(text, s, offset, size);
    }
  }

  lemma GrowsBehind(text: string, s: string, offset: nat, size: nat)
    requires offset >= |text|
    ensures var skip := Min(offset - |text|, |s|);
            Window(text, offset, size) == "" && Window(text + s, offset, size) == s[skip..][..Min(|s| - skip, size)]
  {
    if |text + s| > offset {
      assert (text + s)[offset..] == s[offset - |text|..];
    }
  }

  lemma GrowsInside(text: string, s: string, offset: nat, size: nat)
    requires offset < |text|
    ensures var n := Fill(|text|, offset, size);
            Window(text + s, offset, size) == Window(text, offset, size) + s[..Min(|s|, size - n)] && s[0..] == s
  {
  }
}
