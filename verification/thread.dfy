/** Comments of a thread page: the text carried by a comment body, and the three
    visitors that pick the fields of a comment fragment out of its children. */
module Thread {
  import opened Fragment

  /** A node of a comment body. Tags are kept only as markers; text nodes carry their string. */
  datatype Choice = Iframe | Ul | Img | U | Span | Div | A | Blockquote | Br | I | B | Other(text: string)
  {
    /** The text a node contributes to its comment: its string for a text node, nothing for a tag. */
    function ToString(): (r: string)
      ensures r != "" ==> Other?
      ensures Other? ==> r == text
    {
      match this
      case Other(t) => t
      case _ => ""
    }
  }

  datatype ThreadComment = ThreadComment(author: string, text: seq<Choice>, date: string)
  {
    /** The comment body as plain text: the strings of its text nodes, in order, with every tag dropped. */
    function GetText(): (r: string)
      ensures r == Concat(TextNodes(text))
    {
      JoinTextIsConcat(text);
      JoinText(text)
    }
  }

  datatype ThreadData = ThreadData(title: string, comments: seq<ThreadComment>, commentPage: nat)

  /** The number of text nodes in a body. */
  function TextNodeCount(items: seq<Choice>): nat {
    if items == [] then 0
    else TextNodeCount(items[..|items| - 1]) + (if items[|items| - 1].Other? then 1 else 0)
  }

  /** The fold of `get_text`: start from the empty string and append each node's text.
      A body without text nodes flattens to the empty string. */
  function JoinText(items: seq<Choice>): (r: string)
    ensures TextNodeCount(items) == 0 ==> r == ""
  {
    if items == [] then "" else JoinText(items[..|items| - 1]) + items[|items| - 1].ToString()
  }

  /** Reference definition: the strings of the text nodes, in order. */
  function TextNodes(items: seq<Choice>): seq<string> {
    if items == [] then []
    else if items[0].Other? then [items[0].text] + TextNodes(items[1..])
    else TextNodes(items[1..])
  }

  function Concat(parts: seq<string>): string {
    if parts == [] then "" else parts[0] + Concat(parts[1..])
  }

  /** Flattening distributes over concatenation of bodies; the empty body gives the empty string. */
  lemma {:induction false} JoinTextAppend(a: seq<Choice>, b: seq<Choice>)
    ensures JoinText(a + b) == JoinText(a) + JoinText(b)
    decreases |b|
  {
    if b == [] {
      assert a + b == a;
    } else {
      var b' := b[..|b| - 1];
      assert (a + b)[..|a + b| - 1] == a + b';
      assert (a + b)[|a + b| - 1] == b[|b| - 1];
      JoinTextAppend(a, b');
      calc {
        JoinText(a + b);
        JoinText(a + b') + b[|b| - 1].ToString();
        JoinText(a) + JoinText(b') + b[|b| - 1].ToString();
        JoinText(a) + JoinText(b);
      }
    }
  }

  /** The left fold of the source equals the in-order concatenation of the text nodes. */
  lemma {:induction false} JoinTextIsConcat(items: seq<Choice>)
    ensures JoinText(items) == Concat(TextNodes(items))
    decreases |items|
  {
    if items != [] {
      JoinTextIsConcat(items[1..]);
      JoinTextAppend([items[0]], items[1..]);
      assert [items[0]] + items[1..] == items;
      assert JoinText([items[0]]) == items[0].ToString() by {
        assert [items[0]][..0] == [];
      }
    }
  }

  /** A tag node, wherever it stands in a body, contributes nothing to the text. */
  lemma TagContributesNothing(a: seq<Choice>, c: Choice, b: seq<Choice>)
    requires !c.Other?
    ensures JoinText(a + [c] + b) == JoinText(a + b)
  {
    JoinTextAppend(a + [c], b);
    JoinTextAppend(a, [c]);
    JoinTextAppend(a, b);
    assert [c][..0] == [];
  }

  /** A comment as its visitor builds it: author, message and date, each a default until a child fills it. */
  datatype XMLComment<V> = XMLComment(author: Field<V>, text: Field<V>, date: Field<V>)

  /** Visits the children of a comment fragment. Every `span` sets the author (the last one wins);
      the first `div` is skipped, the second is the message, and every later one sets the date
      (the last one wins); children with other tags are read and ignored. */
  method VisitComment<V>(entries: seq<Entry<V>>) returns (c: XMLComment<V>)
    requires AllKeyed(entries)
    ensures c.author == LastOf(Values(entries, "span"))
    ensures c.text == NthOf(Values(entries, "div"), 1)
    ensures c.date == (var divs := Values(entries, "div"); if |divs| >= 3 then LastOf(divs) else Default)
  {
    c := XMLComment(Default, Default, Default);
    var counter: nat := 0;
    var i := 0;
    while i < |entries|
      invariant i <= |entries|
      invariant counter == Min(|Values(entries[..i], "div")|, 2)
      invariant c.author == LastOf(Values(entries[..i], "span"))
      invariant c.text == NthOf(Values(entries[..i], "div"), 1)
      invariant c.date == (var divs := Values(entries[..i], "div"); if |divs| >= 3 then LastOf(divs) else Default)
    {
      ValuesStep(entries, i, "span");
      ValuesStep(entries, i, "div");
      var key := entries[i].key.value;
      if key == "span" {
        c := c.(author := Decoded(entries[i].value));
      } else if key == "div" && counter == 0 {
        counter := counter + 1;
      } else if key == "div" && counter == 1 {
        c := c.(text := Decoded(entries[i].value));
        counter := counter + 1;
      } else if key == "div" && counter == 2 {
        c := c.(date := Decoded(entries[i].value));
      }
      i := i + 1;
    }
    assert entries[..i] == entries;
  }

  /** An author as its visitor builds it. */
  datatype XMLAuthor<V> = XMLAuthor(name: Field<V>)

  /** Visits the children of an author fragment: only the first `a` is kept; later `a`
      children and children with other tags are ignored. */
  method VisitAuthor<V>(entries: seq<Entry<V>>) returns (a: XMLAuthor<V>)
    requires AllKeyed(entries)
    ensures a.name == FirstOf(Values(entries, "a"))
  {
    a := XMLAuthor(Default);
    var found := false;
    var i := 0;
    while i < |entries|
      invariant i <= |entries|
      invariant found <==> Values(entries[..i], "a") != []
      invariant a.name == FirstOf(Values(entries[..i], "a"))
    {
      ValuesStep(entries, i, "a");
      var key := entries[i].key.value;
      if key == "a" && !found {
        a := a.(name := Decoded(entries[i].value));
        found := true;
      }
      i := i + 1;
    }
    assert entries[..i] == entries;
  }

  /** The date block of a comment as its visitor builds it. */
  datatype XMLMeta<V> = XMLMeta(value: Field<V>)

  /** Visits the children of a comment's date block: the first `span` is skipped, the second
      holds the date, and every other child is ignored. */
  method VisitMeta<V>(entries: seq<Entry<V>>) returns (m: XMLMeta<V>)
    requires AllKeyed(entries)
    ensures m.value == NthOf(Values(entries, "span"), 1)
  {
    m := XMLMeta(Default);
    var counter: nat := 0;
    var i := 0;
    while i < |entries|
      invariant i <= |entries|
      invariant counter == Min(|Values(entries[..i], "span")|, 2)
      invariant m.value == NthOf(Values(entries[..i], "span"), 1)
    {
      ValuesStep(entries, i, "span");
      var key := entries[i].key.value;
      if key == "span" && counter == 0 {
        counter := counter + 1;
      } else if key == "span" && counter == 1 {
        m := m.(value := Decoded(entries[i].value));
        counter := counter + 1;
      }
      i := i + 1;
    }
    assert entries[..i] == entries;
  }
}
