/** A MongoDB collection as the model sees it: the documents by `_id`, and
    the natural order in which a query without `.sort` visits them (the
    order of insertion). The write operations are the ones the core issues:
    `save` of a new document, `save` or `findByIdAndUpdate` of an existing
    one, and `findByIdAndDelete`. */
module Collections {
  import opened Common

  datatype Collection<T> = Collection(docs: map<Id, T>, order: seq<Id>) {

    /** The natural order lists every stored id exactly once. */
    ghost predicate Valid() {
      && NoDuplicates(order)
      && (forall id :: id in order <==> id in docs)
    }

    /** Inserting a new document; it is visited last. */
    function Insert(id: Id, doc: T): (c: Collection<T>)
      requires Valid() && id !in docs
      ensures c.Valid()
      ensures c.docs == docs[id := doc] && c.order == order + [id]
    {
      NoDuplicatesAppend(order, id);
      Collection(docs[id := doc], order + [id])
    }

    /** Replacing a stored document in place; the natural order is kept. */
    function Update(id: Id, doc: T): (c: Collection<T>)
      requires Valid() && id in docs
      ensures c.Valid()
      ensures c.docs == docs[id := doc] && c.order == order
    {
      Collection(docs[id := doc], order)
    }

    /** Deleting a document, if it is there. */
    function Delete(id: Id): (c: Collection<T>)
      requires Valid()
      ensures c.Valid()
      ensures c.docs == docs - {id}
      ensures id !in docs ==> c == this
    {
      var o := Remove(order, id);
      if id !in docs then
        assert id !in order;
        RemoveAbsent(order, id);
        this
      else Collection(docs - {id}, o)
    }

    /** The ids a `find(filter)` returns, in natural order. */
    function Select(p: (Id, T) -> bool): (r: seq<Id>)
      requires Valid()
      ensures NoDuplicates(r)
      ensures forall id {:trigger id in r} :: id in r <==> id in docs && p(id, docs[id])
    {
      Filter(docs, order, p)
    }
  }

  function Remove(s: seq<Id>, x: Id): (r: seq<Id>)
    ensures forall y :: y in r <==> y in s && y != x
    ensures NoDuplicates(s) ==> NoDuplicates(r)
  {
    if s == [] then []
    else if s[0] == x then Remove(s[1..], x)
    else
      assert s[0] !in s[1..] || !NoDuplicates(s);
      [s[0]] + Remove(s[1..], x)
  }

  lemma {:induction false} RemoveAbsent(s: seq<Id>, x: Id)
    requires x !in s
    ensures Remove(s, x) == s
  {
    if s != [] {
      RemoveAbsent(s[1..], x);
    }
  }

  /** Removing an element appended to a sequence that lacked it gives the
      sequence back. */
  /** Deleting a document just inserted gives the collection back. */
  lemma InsertThenDelete<T>(c: Collection<T>, id: Id, doc: T)
    requires c.Valid() && id !in c.docs
    ensures c.Insert(id, doc).Delete(id) == c
  {
    assert id !in c.order;
    RemoveLast(c.order, id);
    assert c.docs[id := doc] - {id} == c.docs;
  }

  lemma {:induction false} RemoveLast(s: seq<Id>, x: Id)
    requires x !in s
    ensures Remove(s + [x], x) == s
  {
    if s != [] {
      assert (s + [x])[1..] == s[1..] + [x];
      RemoveLast(s[1..], x);
    }
  }

  /** The elements of `s` whose documents satisfy `p`, in the order of `s`. */
  function Filter<T>(docs: map<Id, T>, s: seq<Id>, p: (Id, T) -> bool): (r: seq<Id>)
    requires forall id :: id in s ==> id in docs
    ensures forall id :: id in r <==> id in s && p(id, docs[id])
    ensures NoDuplicates(s) ==> NoDuplicates(r)
  {
    if s == [] then []
    else
      var rest := Filter(docs, s[1..], p);
      assert s[0] !in s[1..] || !NoDuplicates(s);
      if p(s[0], docs[s[0]]) then [s[0]] + rest else rest
  }
}
