/** The benchmark's hash_object over parsed values. None stands for the exception on a type the benchmark does not
    produce, and for the failed assertion on a map key that is not a string. */
module ValueHash {
  import opened Bytes
  import opened Values
  import opened Hashing
  import opened Options

  function HashValue(v: Value, hash: uint32): (r: Option<uint32>)
    decreases v
  {
    match v
    case Null => Some(HashNil(hash))
    case Bool(b) => Some(HashBool(hash, b))
    case F32(_) => Some(HashDouble(hash))
    case F64(_) => Some(HashDouble(hash))
    case Int(kind, n) => Some(if kind.IsSigned() then HashI64(hash, n) else HashU64(hash, n % TWO_TO_THE_64))
    case Str(s) => Some(HashStr(hash, s))
    case Arr(items) =>
      var r := HashItems(items, hash);
      if r.None? then None else Some(HashU32(r.value, |items| % TWO_TO_THE_32))
    case Obj(entries) =>
      var r := HashPairs(entries, hash);
      if r.None? then None else Some(HashU32(r.value, |entries| % TWO_TO_THE_32))
    case _ => None
  }

  function HashItems(items: seq<Value>, hash: uint32): (r: Option<uint32>)
    decreases items
  {
    if items == [] then Some(hash)
    else
      var r := HashValue(items[0], hash);
      if r.None? then None else HashItems(items[1..], r.value)
  }

  function HashPairs(entries: seq<Pair>, hash: uint32): (r: Option<uint32>)
    decreases entries
  {
    if entries == [] then Some(hash)
    else
      var r := HashPair(entries[0], hash);
      if r.None? then None else HashPairs(entries[1..], r.value)
  }

  function HashPair(p: Pair, hash: uint32): (r: Option<uint32>)
    decreases p
  {
    if p.key.Str? then HashValue(p.value, HashStr(hash, p.key.str)) else None
  }

  /** The same as written: the containers update a captured hash item by item. */
  method HashParsed(pack: Value, hash0: uint32) returns (r: Option<uint32>)
    ensures r == HashValue(pack, hash0)
    decreases pack
  {
    hide HashU32, HashU64, HashI64, HashStr, HashNil, HashDouble, HashBool;
    match pack
    case Null => r := Some(HashNil(hash0));
    case Bool(b) => r := Some(HashBool(hash0, b));
    case F32(_) => r := Some(HashDouble(hash0));
    case F64(_) => r := Some(HashDouble(hash0));
    case Int(kind, n) => r := Some(if kind.IsSigned() then HashI64(hash0, n) else HashU64(hash0, n % TWO_TO_THE_64));
    case Str(s) =>
      var h := HashStrLoop(hash0, s);
      r := Some(h);
    case Arr(items) =>
      var hash := hash0;
      var i := 0;
      while i < |items|
        invariant 0 <= i <= |items|
        invariant HashItems(items, hash0) == HashItems(items[i..], hash)
      {
        var h := HashParsed(items[i], hash);
        assert items[i..][1..] == items[i + 1..];
        if h.None? {
          return None;
        }
        hash := h.value;
        i := i + 1;
      }
      r := Some(HashU32(hash, |items| % TWO_TO_THE_32));
    case Obj(entries) =>
      var hash := hash0;
      var i := 0;
      while i < |entries|
        invariant 0 <= i <= |entries|
        invariant HashPairs(entries, hash0) == HashPairs(entries[i..], hash)
      {
        var item := entries[i];
        assert entries[i..][1..] == entries[i + 1..];
        assert entries[i..][0] == item;
        if !item.key.Str? {
          return None;
        }
        hash := HashStrLoop(hash, item.key.str);
        var h := HashParsed(item.value, hash);
        if h.None? {
          return None;
        }
        hash := h.value;
        i := i + 1;
      }
      r := Some(HashU32(hash, |entries| % TWO_TO_THE_32));
    case Bin(_) => r := None;
    case Ext(_, _) => r := None;
  }
}
