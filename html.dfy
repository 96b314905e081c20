/**
  Content and link extraction (getHTMLContent and getLinks in pipeline.go),
  over the token stream an HTML tokenizer produces. The tokenizer itself is
  not modelled: each function takes the stream as a sequence of tokens. A
  tokenizer always ends its stream with an error token (end of input or a
  read error); a sequence that runs out is read the same way.
*/
module Html {

  datatype Attr = Attr(key: string, val: string)

  /**
    The token kinds the extractors tell apart. `Other` stands for the kinds
    both of them skip: self-closing tags, comments and doctypes.
  */
  datatype Token =
    | Start(name: string, attrs: seq<Attr>)
    | End(name: string)
    | Text(text: string)
    | Other
    | Error

  const Anchor: string := "a"

  predicate IsStartOf(t: Token, tag: string)
  {
    t.Start? && t.name == tag
  }

  predicate IsEndOf(t: Token, tag: string)
  {
    t.End? && t.name == tag
  }

  /**
    The `valid` flag of getHTMLContent before token `k`: the last start or
    end tag named `tag` among the first `k` tokens is a start tag.
  */
  predicate InsideAt(ts: seq<Token>, tag: string, k: nat)
    requires k <= |ts|
    decreases k
  {
    if k == 0 then false
    else if IsStartOf(ts[k - 1], tag) then true
    else if IsEndOf(ts[k - 1], tag) then false
    else InsideAt(ts, tag, k - 1)
  }

  /**
    Read as a statement about the document: token `k` is inside a `tag`
    element when some start tag named `tag` comes before it and no end tag
    named `tag` comes between the two.
  */
  lemma {:induction false} InsideAtIsOpenElement(ts: seq<Token>, tag: string, k: nat)
    requires k <= |ts|
    ensures InsideAt(ts, tag, k) <==>
      exists j :: 0 <= j < k && IsStartOf(ts[j], tag) && forall m :: j < m < k ==> !IsEndOf(ts[m], tag)
    decreases k
  {
    if k == 0 {
    } else if IsStartOf(ts[k - 1], tag) {
      assert IsStartOf(ts[k - 1], tag);
    } else if IsEndOf(ts[k - 1], tag) {
      forall j | 0 <= j < k && IsStartOf(ts[j], tag)
        ensures exists m :: j < m < k && IsEndOf(ts[m], tag)
      {
        assert j < k - 1 && IsEndOf(ts[k - 1], tag);
      }
    } else {
      InsideAtIsOpenElement(ts, tag, k - 1);
      if InsideAt(ts, tag, k) {
        var j :| 0 <= j < k - 1 && IsStartOf(ts[j], tag) && forall m :: j < m < k - 1 ==> !IsEndOf(ts[m], tag);
        assert forall m :: j < m < k ==> !IsEndOf(ts[m], tag);
      } else {
        forall j | 0 <= j < k && IsStartOf(ts[j], tag)
          ensures exists m :: j < m < k && IsEndOf(ts[m], tag)
        {
          assert j < k - 1;
          var m :| j < m < k - 1 && IsEndOf(ts[m], tag);
        }
      }
    }
  }

  /** getHTMLContent stops at token `k`: an error, or a text token inside a `tag` element. */
  predicate StopsAt(ts: seq<Token>, tag: string, k: nat)
    requires k < |ts|
  {
    ts[k].Error? || (ts[k].Text? && InsideAt(ts, tag, k))
  }

  /** The first index at or after `k` where getHTMLContent stops, or `|ts|`. */
  function FirstStop(ts: seq<Token>, tag: string, k: nat): (j: nat)
    requires k <= |ts|
    ensures k <= j <= |ts|
    ensures j < |ts| ==> StopsAt(ts, tag, j)
    ensures forall m :: k <= m < j ==> !StopsAt(ts, tag, m)
    decreases |ts| - k
  {
    if k == |ts| then |ts|
    else if StopsAt(ts, tag, k) then k
    else FirstStop(ts, tag, k + 1)
  }

  datatype Extracted = Extracted(text: string, failed: bool)

  /**
    What getHTMLContent returns for `tag`: the first text token inside a
    `tag` element, unless an error token comes first; on an error, or when
    the stream runs out, the empty string with an error.
  */
  function Content(ts: seq<Token>, tag: string): (r: Extracted)
    ensures r.failed ==> r.text == ""
    ensures r.failed ==> forall k :: 0 <= k < |ts| && ts[k].Text? && InsideAt(ts, tag, k) ==>
      exists m :: 0 <= m < k && ts[m].Error?
    ensures !r.failed ==> exists k :: (0 <= k < |ts| && ts[k] == Text(r.text) && InsideAt(ts, tag, k)
      && forall m :: 0 <= m < k ==> !StopsAt(ts, tag, m))
  {
    var k := FirstStop(ts, tag, 0);
    if k < |ts| && ts[k].Text? then Extracted(ts[k].text, false)
    else
      ErrorComesFirst(ts, tag);
      Extracted("", true)
  }

  lemma ErrorComesFirst(ts: seq<Token>, tag: string)
    requires var k := FirstStop(ts, tag, 0); k == |ts| || !ts[k].Text?
    ensures forall k :: 0 <= k < |ts| && ts[k].Text? && InsideAt(ts, tag, k) ==>
      exists m :: 0 <= m < k && ts[m].Error?
  {
    var j := FirstStop(ts, tag, 0);
    forall k | 0 <= k < |ts| && ts[k].Text? && InsideAt(ts, tag, k)
      ensures exists m :: 0 <= m < k && ts[m].Error?
    {
      assert StopsAt(ts, tag, k);
      assert j <= k && j != k;
      assert ts[j].Error?;
    }
  }

  /** The token loop of getHTMLContent, with its `valid` flag. */
  method GetHTMLContent(ts: seq<Token>, tag: string) returns (result: string, failed: bool)
    ensures Extracted(result, failed) == Content(ts, tag)
  {
    var valid := false;
    var i := 0;
    while i < |ts|
      invariant i <= |ts|
      invariant valid == InsideAt(ts, tag, i)
      invariant FirstStop(ts, tag, 0) == FirstStop(ts, tag, i)
    {
      match ts[i] {
        case Error =>
          return "", true;
        case Text(t) =>
          if valid {
            return t, false;
          }
        case Start(n, _) =>
          if n == tag {
            valid := true;
          }
        case End(n) =>
          if n == tag {
            valid := false;
          }
        case Other =>
      }
      i := i + 1;
    }
    return "", true;
  }

  /**
    The attribute map of one tag: every key of the tag, each bound to the
    value of its last occurrence (a later duplicate overwrites an earlier one).
  */
  function AttrMap(attrs: seq<Attr>): (m: map<string, string>)
    ensures m.Keys == set i | 0 <= i < |attrs| :: attrs[i].key
    decreases |attrs|
  {
    if attrs == [] then map[]
    else
      var last := attrs[|attrs| - 1];
      var init := attrs[..|attrs| - 1];
      assert forall i :: 0 <= i < |init| ==> init[i] == attrs[i];
      AttrMap(init)[last.key := last.val]
  }

  /** The last occurrence of a key wins. */
  lemma {:induction false} AttrMapLastWins(attrs: seq<Attr>, i: nat)
    requires i < |attrs|
    requires forall j :: i < j < |attrs| ==> attrs[j].key != attrs[i].key
    ensures attrs[i].key in AttrMap(attrs) && AttrMap(attrs)[attrs[i].key] == attrs[i].val
    decreases |attrs|
  {
    if i < |attrs| - 1 {
      var init := attrs[..|attrs| - 1];
      assert forall j :: i < j < |init| ==> init[j] == attrs[j];
      AttrMapLastWins(init, i);
    }
  }

  /**
    What getLinks returns: the attribute map of every `a` start tag before
    the first error token, in stream order.
  */
  function Links(ts: seq<Token>): (r: seq<map<string, string>>)
    ensures |r| <= |ts|
    decreases |ts|
  {
    if ts == [] then []
    else match ts[0]
      case Error => []
      case Start(n, attrs) => (if n == Anchor then [AttrMap(attrs)] else []) + Links(ts[1..])
      case _ => Links(ts[1..])
  }

  /** Links of an error-free prefix come first, in order, followed by those of the rest. */
  lemma {:induction false} LinksAppend(a: seq<Token>, b: seq<Token>)
    requires forall k :: 0 <= k < |a| ==> !a[k].Error?
    ensures Links(a + b) == Links(a) + Links(b)
    decreases |a|
  {
    if a == [] {
      assert a + b == b;
    } else {
      assert (a + b)[0] == a[0] && (a + b)[1..] == a[1..] + b;
      LinksAppend(a[1..], b);
    }
  }

  /** Nothing after the first error token is looked at. */
  lemma LinksStopAtError(a: seq<Token>, b: seq<Token>)
    requires forall k :: 0 <= k < |a| ==> !a[k].Error?
    ensures Links(a + [Error] + b) == Links(a)
  {
    assert a + [Error] + b == a + ([Error] + b);
    LinksAppend(a, [Error] + b);
  }

  /** The token loop of getLinks, with its inner loop over the attributes of an `a` tag. */
  method GetLinks(ts: seq<Token>) returns (result: seq<map<string, string>>)
    ensures result == Links(ts)
  {
    result := [];
    var i := 0;
    while i < |ts|
      invariant i <= |ts|
      invariant Links(ts) == result + Links(ts[i..])
    {
      assert ts[i..][1..] == ts[i + 1..];
      match ts[i] {
        case Error =>
          return;
        case Start(n, attrs) =>
          if n == Anchor {
            var link: map<string, string> := map[];
            for j := 0 to |attrs|
              invariant link == AttrMap(attrs[..j])
            {
              assert attrs[..j + 1][..j] == attrs[..j];
              link := link[attrs[j].key := attrs[j].val];
            }
            assert attrs[..|attrs|] == attrs;
            result := result + [link];
          }
        case _ =>
      }
      i := i + 1;
    }
  }

  /** The title of `<html><head><title>Hello</title></head><body>` is "Hello". */
  lemma TitleExample()
    ensures Content([Start("html", []), Start("head", []), Start("title", []), Text("Hello"), End("title"),
                     End("head"), Start("body", []), Error], "title") == Extracted("Hello", false)
  {
    var ts := [Start("html", []), Start("head", []), Start("title", []), Text("Hello"), End("title"),
               End("head"), Start("body", []), Error];
    assert !InsideAt(ts, "title", 0) && !InsideAt(ts, "title", 1) && !InsideAt(ts, "title", 2);
    assert InsideAt(ts, "title", 3);
    assert FirstStop(ts, "title", 0) == 3;
  }

  /** `<a href="/a">x</a><a href="/b">y</a>` yields the two links in document order. */
  lemma LinksExample()
    ensures Links([Start("a", [Attr("href", "/a")]), Text("x"), End("a"),
                   Start("a", [Attr("href", "/b")]), Text("y"), End("a"), Error])
         == [map["href" := "/a"], map["href" := "/b"]]
  {
    var ts := [Start("a", [Attr("href", "/a")]), Text("x"), End("a"),
               Start("a", [Attr("href", "/b")]), Text("y"), End("a"), Error];
    assert Links(ts[3..]) == [map["href" := "/b"]] + Links(ts[4..]);
  }
}
