/** std::map<MsgPack, MsgPack> as the list of its entries in iteration order. */
module Maps {
  import opened Values
  import opened Comparison

  /** insert: the entry goes before the first larger key, and nowhere when an equivalent key is present. */
  function Insert(entries: seq<Pair>, e: Pair): (r: seq<Pair>)
    ensures |entries| <= |r| <= |entries| + 1
  {
    if entries == [] then [e]
    else if Less(entries[0].key, e.key) then [entries[0]] + Insert(entries[1..], e)
    else if Less(e.key, entries[0].key) then [e] + entries
    else entries
  }

  /** The map after inserting the pairs in the order they arrive on the wire. */
  function BuildMap(pairs: seq<Pair>): (r: seq<Pair>)
    ensures |r| <= |pairs|
  {
    if pairs == [] then [] else Insert(BuildMap(pairs[..|pairs| - 1]), pairs[|pairs| - 1])
  }
}
