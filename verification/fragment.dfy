/** The shape shared by every fragment visitor: a fragment is the sequence of its
    child elements, each with a tag name and a value that has already been decoded.
    A visitor walks the children in order and decides, from the tag name and a small
    counter or flag, which field of its record a child fills. */
module Fragment {

  datatype Option<T> = None | Some(value: T)

  /** One child element: its tag name (absent when the reader yields none) and its decoded value. */
  datatype Entry<V> = Entry(key: Option<string>, value: V)

  /** A field of a decoded record: still holding its type's default, or filled from a child. */
  datatype Field<V> = Default | Decoded(value: V)

  /** Every child has a tag name; a nameless child makes the visitors panic at `unwrap`. */
  predicate AllKeyed<V>(entries: seq<Entry<V>>) {
    forall i :: 0 <= i < |entries| ==> entries[i].key.Some?
  }

  /** The values of the children whose tag is `name`, in document order. */
  function Values<V>(entries: seq<Entry<V>>, name: string): (vs: seq<V>)
    ensures |vs| <= |entries|
  {
    if entries == [] then []
    else
      var last := entries[|entries| - 1];
      Values(entries[..|entries| - 1], name) + (if last.key == Some(name) then [last.value] else [])
  }

  /** The first value, or the default when there is none. */
  function FirstOf<V>(vs: seq<V>): Field<V> {
    if vs == [] then Default else Decoded(vs[0])
  }

  /** The last value, or the default when there is none. */
  function LastOf<V>(vs: seq<V>): Field<V> {
    if vs == [] then Default else Decoded(vs[|vs| - 1])
  }

  /** The value at position `n`, or the default when there are not that many. */
  function NthOf<V>(vs: seq<V>, n: nat): Field<V> {
    if n < |vs| then Decoded(vs[n]) else Default
  }

  function Min(a: nat, b: nat): nat {
    if a <= b then a else b
  }

  /** Reading one more child extends the values of its tag by its value, and nothing else. */
  lemma ValuesStep<V>(entries: seq<Entry<V>>, i: nat, name: string)
    requires i < |entries|
    ensures Values(entries[..i + 1], name)
         == Values(entries[..i], name) + (if entries[i].key == Some(name) then [entries[i].value] else [])
  {
    assert entries[..i + 1][..i] == entries[..i];
  }

  /** The values of a concatenation are the concatenation of the values. */
  lemma {:induction false} ValuesAppend<V>(a: seq<Entry<V>>, b: seq<Entry<V>>, name: string)
    ensures Values(a + b, name) == Values(a, name) + Values(b, name)
    decreases |b|
  {
    if b == [] {
      assert a + b == a;
    } else {
      var b' := b[..|b| - 1];
      assert (a + b)[..|a + b| - 1] == a + b';
      ValuesAppend(a, b', name);
    }
  }

  /** A child with another tag, wherever it stands, does not change the values of `name`. */
  lemma OtherTagIgnored<V>(a: seq<Entry<V>>, e: Entry<V>, b: seq<Entry<V>>, name: string)
    requires e.key != Some(name)
    ensures Values(a + [e] + b, name) == Values(a + b, name)
  {
    ValuesAppend(a + [e], b, name);
    ValuesAppend(a, [e], name);
    ValuesAppend(a, b, name);
    assert [e][..0] == [];
  }
}
