/** Entries of the thread list: their identity, and the visitor that picks the
    fields of a list entry out of its children. */
module Overview {
  import opened Fragment

  datatype ThreadOverview = ThreadOverview(title: string, url: string, author: string, replies: string)
  {
    /** Two list entries are the same thread when their titles agree; url, author and reply count play no part. */
    predicate Eq(other: ThreadOverview): (r: bool)
      ensures r <==> this.(url := "", author := "", replies := "") == other.(url := "", author := "", replies := "")
    {
      title == other.title
    }
  }

  /** Entries with different titles are never equal, whatever else they share. */
  lemma DifferentTitlesNeverEq(a: ThreadOverview, b: ThreadOverview)
    ensures a.title != b.title ==> !a.Eq(b)
  {
  }

  /** Equality of entries is an equivalence relation. */
  lemma EqIsEquivalence()
    ensures forall a: ThreadOverview :: a.Eq(a)
    ensures forall a: ThreadOverview, b: ThreadOverview :: a.Eq(b) ==> b.Eq(a)
    ensures forall a: ThreadOverview, b: ThreadOverview, c: ThreadOverview :: a.Eq(b) && b.Eq(c) ==> a.Eq(c)
  {
  }

  /** Entries that differ only in url, author or reply count are equal, so the relation is
      strictly coarser than structural equality. */
  lemma EqIgnoresAllButTitle(a: ThreadOverview, url: string, author: string, replies: string)
    ensures a.Eq(ThreadOverview(a.title, url, author, replies))
    ensures a.url != url ==> a != ThreadOverview(a.title, url, author, replies)
  {
  }

  /** Among entries that already agree on url, author and reply count, `Eq` is structural equality. */
  lemma EqNeedsSameTitle(a: ThreadOverview, b: ThreadOverview)
    requires a.url == b.url && a.author == b.author && a.replies == b.replies
    ensures a.Eq(b) <==> a == b
  {
  }

  /** A list entry as its visitor builds it: author, reply count and title link, each a default until a child fills it. */
  datatype XMLDiscussion<V> = XMLDiscussion(author: Field<V>, replies: Field<V>, title: Field<V>)

  /** Visits the children of a list entry. Every `a` sets the author (the last one wins);
      the first `div` is the reply count and every later one sets the title (the last one wins);
      children with other tags leave the record as it is. */
  method VisitDiscussion<V>(entries: seq<Entry<V>>) returns (d: XMLDiscussion<V>)
    requires AllKeyed(entries)
    ensures d.author == LastOf(Values(entries, "a"))
    ensures d.replies == FirstOf(Values(entries, "div"))
    ensures d.title == (var divs := Values(entries, "div"); if |divs| >= 2 then LastOf(divs) else Default)
  {
    d := XMLDiscussion(Default, Default, Default);
    var counter: nat := 0;
    var i := 0;
    while i < |entries|
      invariant i <= |entries|
      invariant counter == Min(|Values(entries[..i], "div")|, 1)
      invariant d.author == LastOf(Values(entries[..i], "a"))
      invariant d.replies == FirstOf(Values(entries[..i], "div"))
      invariant d.title == (var divs := Values(entries[..i], "div"); if |divs| >= 2 then LastOf(divs) else Default)
    {
      ValuesStep(entries, i, "a");
      ValuesStep(entries, i, "div");
      var key := entries[i].key.value;
      if key == "a" {
        d := d.(author := Decoded(entries[i].value));
      } else if key == "div" && counter == 0 {
        d := d.(replies := Decoded(entries[i].value));
        counter := counter + 1;
      } else if key == "div" {
        d := d.(title := Decoded(entries[i].value));
      }
      i := i + 1;
    }
    assert entries[..i] == entries;
  }
}
