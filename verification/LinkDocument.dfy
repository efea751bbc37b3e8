/** The list of resources as a reader of the link format takes it apart (section 2 of RFC 6690): each target between
    `</` and `>`, attributes behind a semicolon, commas between the links. */
module LinkDocument {
  import opened LinkFormat

  datatype Link = Link(target: string, attributes: string)

  /** How much of a text lies in front of the first `c`. */
  function Before(text: string, c: char): (k: nat)
    ensures k <= |text| && c !in text[..k] && (k < |text| ==> text[k] == c)
  {
    if text == "" || text[0] == c then 0 else
    var k := Before(text[1..], c);
    assert text[..k + 1] == [text[0]] + text[1..][..k];
    k + 1
  }

  /** One link, and the text behind it. */
  function ReadLink(text: string): (r: Option<(Link, string)>)
    ensures r.Some? ==> |r.value.1| < |text|
  {
    if |text| < 2 || text[0] != '<' || text[1] != '/' then None else ReadTarget(text[2..])
  }

  function ReadTarget(text: string): (r: Option<(Link, string)>)
    ensures r.Some? ==> |r.value.1| < |text|
  {
    var k := Before(text, '>');
    if k == |text| then None else Some(ReadAttributes(text[..k], text[k + 1..]))
  }

  function ReadAttributes(target: string, rest: string): (r: (Link, string))
    ensures |r.1| <= |rest|
  {
    if rest == "" || rest[0] != ';' then (Link(target, ""), rest) else
    var n := Before(rest[1..], ',');
    (Link(target, rest[1..][..n]), rest[1..][n..])
  }

  /** A list of links with commas between them. */
  function ReadLinks(text: string): (r: Option<seq<Link>>)
    decreases |text|
  {
    var first := ReadLink(text);
    if first.None? then None
    else if first.value.1 == "" then Some([first.value.0])
    else if first.value.1[0] != ',' then None
    else
      var later := ReadLinks(first.value.1[1..]);
      if later.None? then None else Some([first.value.0] + later.value)
  }

  function ReadDocument(text: string): (r: Option<seq<Link>>) {
    if text == "" then Some([]) else ReadLinks(text)
  }

  /** What a resource says: its path, and its attributes if it has any. */
  function LinkOf(r: Resource): (l: Link) {
    Link(r.url, match r.attributes case None => "" case Some(a) => a)
  }

  function LinksOf(resources: seq<Resource>): (ls: seq<Link>)
    ensures |ls| == |resources|
  {
    seq(|resources|, i requires 0 <= i < |resources| => LinkOf(resources[i]))
  }

  /** A path that does not close its own bracket, and attributes without a comma. */
  predicate Readable(r: Resource) { '>' !in r.url && (r.attributes.Some? ==> ',' !in r.attributes.value) }

  predicate AllReadable(resources: seq<Resource>) { forall i :: 0 <= i < |resources| ==> Readable(resources[i]) }

  // --------------------------------------------------------------- the first link

  lemma {:induction false} BeforeIs(text: string, c: char, k: nat)
    requires k <= |text| && c !in text[..k] && (k < |text| ==> text[k] == c)
    ensures Before(text, c) == k
    decreases k
  {
    if k > 0 {
      assert text[..k][0] == text[0] && text[1..][..k - 1] == text[..k][1..];
      BeforeIs(text[1..], c, k - 1);
    }
  }

  /** A separator behind a text that has none, or the end, is found; and one in the text cuts it. */
  lemma CutsAt(a: string, c: char, rest: string)
    requires rest == "" || rest[0] == c
    ensures c !in a ==> (a + rest)[..Before(a + rest, c)] == a && (a + rest)[Before(a + rest, c)..] == rest
    ensures c in a ==> |(a + rest)[..Before(a + rest, c)]| < |a|
  {
    var text := a + rest;
    if c !in a {
      assert text[..|a|] == a;
      BeforeIs(text, c, |a|);
    } else {
      CutsInside(a, c, rest);
    }
  }

  lemma CutsInside(a: string, c: char, rest: string)
    requires c in a
    ensures Before(a + rest, c) < |a|
  {
    var k := Before(a, c);
    assert a[..|a|] == a;
    assert (a + rest)[..k] == a[..k];
    BeforeIs(a + rest, c, k);
  }

  /** What follows a link: nothing, or a comma and more. */
  predicate Follows(rest: string) { rest == "" || rest[0] == ',' }

  function Tail(r: Resource): (s: string) { if HasAttributes(r) then ";" + r.attributes.value else "" }

  lemma ReadsEntry(r: Resource, rest: string)
    requires Follows(rest)
    ensures Readable(r) ==> ReadLink(Entry(r) + rest) == Some((LinkOf(r), rest))
    ensures !Readable(r) ==> ReadLink(Entry(r) + rest).None? || ReadLink(Entry(r) + rest).value.0 != LinkOf(r)
  {
    EntrySplits(r, rest);
    var text := r.url + (['>'] + (Tail(r) + rest));
    assert ReadLink(Entry(r) + rest) == ReadTarget(text);
    hide Entry, ReadLink, Tail, HasAttributes;
    CutsAt(r.url, '>', ['>'] + (Tail(r) + rest));
    ReadsTail(r, r.url, rest);
    var k := Before(text, '>');
    if '>' !in r.url {
      assert text[k..] == ['>'] + (Tail(r) + rest);
      assert text[k + 1..] == text[k..][1..] == Tail(r) + rest;
      hide ReadAttributes;
    } else if k < |text| {
      assert ReadTarget(text).value.0.target == text[..k];
    }
  }

  lemma EntrySplits(r: Resource, rest: string)
    ensures var text := r.url + (['>'] + (Tail(r) + rest));
            Entry(r) + rest == ['<', '/'] + text && (Entry(r) + rest)[2..] == text
  {
    var text := r.url + (['>'] + (Tail(r) + rest));
    assert Entry(r) + rest == ['<', '/'] + text;
    assert (['<', '/'] + text)[2..] == text;
  }

  lemma ReadsTail(r: Resource, target: string, rest: string)
    requires Follows(rest)
    ensures var a := LinkOf(r).attributes;
            if ',' !in a then ReadAttributes(target, Tail(r) + rest) == (Link(target, a), rest)
            else ReadAttributes(target, Tail(r) + rest).0.attributes != a
  {
    var a := LinkOf(r).attributes;
    if HasAttributes(r) {
      assert Tail(r) + rest == [';'] + (a + rest);
      assert ([';'] + (a + rest))[1..] == a + rest;
      CutsAt(a, ',', rest);
    } else {
      assert "" + rest == rest;
    }
  }

  // --------------------------------------------------------------- all links

  /** The links of some resources, from the first on. */
  function Listed(resources: seq<Resource>): (s: string) {
    if resources == [] then "" else Entry(resources[0]) + (if |resources| == 1 then "" else "," + Listed(resources[1..]))
  }

  lemma {:induction false} LinksThenListed(resources: seq<Resource>, i: nat)
    requires i <= |resources|
    ensures Document(resources) ==
      Links(resources, i) + (if 0 < i < |resources| then "," else "") + Listed(resources[i..])
    decreases |resources| - i
  {
    hide Entry;
    if i < |resources| {
      LinksThenListed(resources, i + 1);
      var here, comma := Entry(resources[i]), if i > 0 then "," else "";
      assert Links(resources, i + 1) == Links(resources, i) + comma + here;
      ListedFirst(resources, i);
      var later := if i + 1 < |resources| then "," + Listed(resources[i + 1..]) else "";
      hide Links, Listed;
      assert Links(resources, i) + comma + here + later == Links(resources, i) + comma + (here + later);
      if i + 1 < |resources| {
        assert Links(resources, i + 1) + "," + Listed(resources[i + 1..]) == Links(resources, i + 1) + later;
      } else {
        ListedNothing(resources);
        assert Links(resources, i + 1) + "" + "" == Links(resources, i + 1) + later;
      }
    } else {
      ListedNothing(resources);
      assert Links(resources, i) + "" + "" == Links(resources, i);
    }
  }

  lemma ListedNothing(resources: seq<Resource>)
    ensures Listed(resources[|resources|..]) == ""
  {
  }

  lemma ListedFirst(resources: seq<Resource>, i: nat)
    requires i < |resources|
    ensures Listed(resources[i..]) ==
      Entry(resources[i]) + if i + 1 < |resources| then "," + Listed(resources[i + 1..]) else ""
  {
    hide Entry;
    assert resources[i..][1..] == resources[i + 1..] && resources[i..][0] == resources[i];
  }

  lemma {:induction false} ReadsListed(resources: seq<Resource>)
    requires resources != []
    ensures ReadLinks(Listed(resources)) == Some(LinksOf(resources)) <==> AllReadable(resources)
    decreases |resources|
  {
    var r := resources[0];
    var rest := if |resources| == 1 then "" else "," + Listed(resources[1..]);
    ReadsEntry(r, rest);
    LinksFirst(resources);
    hide Entry, ReadLink, Readable, LinkOf, LinksOf, AllReadable;
    assert Listed(resources) == Entry(r) + rest;
    if |resources| > 1 {
      assert rest[1..] == Listed(resources[1..]);
      ReadsListed(resources[1..]);
    }
    hide Listed;
    ReadsFirst(Entry(r) + rest, rest, Readable(r), LinkOf(r), LinksOf(resources[1..]));
  }

  /** Reading a first link that is `l` exactly when `readable`, and then the others. */
  lemma ReadsFirst(text: string, rest: string, readable: bool, l: Link, ls: seq<Link>)
    requires Follows(rest) && (rest == "" ==> ls == [])
    requires readable ==> ReadLink(text) == Some((l, rest))
    requires !readable ==> ReadLink(text).None? || ReadLink(text).value.0 != l
    ensures ReadLinks(text) == Some([l] + ls) <==> readable && (rest == "" || ReadLinks(rest[1..]) == Some(ls))
  {
    hide ReadLink;
    var r := ReadLinks(text);
    assert r.Some? ==> r.value[0] == ReadLink(text).value.0;
    assert ([l] + ls)[0] == l && ([l] + ls)[1..] == ls;
    if rest == "" {
      assert [l] + ls == [l];
    }
    if readable && rest != "" && ReadLinks(rest[1..]).Some? {
      var later := ReadLinks(rest[1..]).value;
      assert r == Some([l] + later) && ([l] + later)[1..] == later;
    }
  }

  lemma LinksFirst(resources: seq<Resource>)
    requires resources != []
    ensures LinksOf(resources) == [LinkOf(resources[0])] + LinksOf(resources[1..]) && LinksOf([]) == []
    ensures AllReadable(resources) <==> Readable(resources[0]) && AllReadable(resources[1..])
    ensures |resources| == 1 ==> resources[1..] == [] && AllReadable([])
  {
    hide LinkOf, Readable;
    assert forall i :: 0 <= i < |resources| - 1 ==> resources[1..][i] == resources[i + 1];
  }

  /** The document of some resources is read back as their paths and attributes exactly when no path has a closing
      bracket and no attributes a comma. */
  lemma DocumentReads(resources: seq<Resource>)
    ensures ReadDocument(Document(resources)) == Some(LinksOf(resources)) <==> AllReadable(resources)
  {
    LinksThenListed(resources, 0);
    assert resources[0..] == resources;
    assert Links(resources, 0) + "" + Listed(resources) == Listed(resources);
    if resources != [] {
      ReadsListed(resources);
      assert Entry(resources[0]) != "";
    }
  }
}
