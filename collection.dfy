/**
 * The `user_registrations` collection as an in-memory table updated in place.
 * Documents are kept in insertion order; `find_one` is `Records.FindOne` on
 * the current `records`.
 */
module Collection {
  import opened Records

  class UserCollection {
    var records: seq<Record>

    /** A new, empty collection. */
    constructor ()
      ensures records == []
    {
      records := [];
    }

    /** `insert_one`: appends the document; every earlier document is kept as it was. */
    method InsertOne(doc: Record)
      modifies this
      ensures records == old(records) + [doc]
    {
      records := records + [doc];
    }

    /**
     * `update_one`: applies `u` to the first document `f` matches, if any.
     * `matched` reports whether some document matched.
     */
    method UpdateOne(f: Filter, u: Update) returns (matched: bool)
      modifies this
      ensures matched <==> !NoMatch(old(records), f)
      ensures records == UpdateFirst(old(records), f, u)
    {
      var k := FirstMatch(records, f);
      matched := k.Some?;
      if k.Some? {
        records := records[k.value := Apply(records[k.value], u)];
      }
    }
  }
}
