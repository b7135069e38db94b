/** The `json` codec that turns a hash into the document the cache stores and
    back. A document is seen at the level of a JSON object (section 4 of
    RFC 8259): an ordered list of name/value members. The characters of the
    text are not modelled. */
module Json {
  import opened Dict

  /** A value a hash field holds: an integer (a Python `int` or `long`), a
      string, or anything else JSON can carry (a float, a boolean, null, an
      array or an object). */
  datatype Val = Int(n: int) | Str(s: string) | Other

  type Member = (string, Val)

  /** What the cache holds under a key: the text of a JSON object, or some
      other value stored through the plain `set` the client inherits. */
  datatype Document = Object(members: seq<Member>) | Bare(text: string)

  /** `json.loads` of an object: a dictionary in which, when a name occurs
      twice, the later member wins. */
  function Loads(doc: Document): (d: map<string, Val>)
    requires doc.Object?
    ensures d.Keys == KeysOf(doc.members)
    ensures |d| <= |doc.members|
  {
    KeysOfBound(doc.members);
    FromItems(doc.members)
  }

  /** `json.dumps` of a dictionary: one member per entry, in the dictionary's
      iteration order; reading the document back gives the same dictionary. */
  method Dumps(d: map<string, Val>) returns (doc: Document)
    ensures doc.Object? && DistinctKeys(doc.members) && |doc.members| == |d|
    ensures Loads(doc) == d
  {
    var items := IterItems(d);
    ItemsRebuild(d, items);
    doc := Object(items);
  }
}
