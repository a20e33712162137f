/**
 * What the two stat calls return: a dict whose keys come in the order of
 * `BASICSTAT_PRINT_ORDER` / `FULLSTAT_PRINT_ORDER`, and the ways decoding fails.
 */
module Record {

  /** A dict value: text, an `int()`-converted number, or a list of text. */
  datatype Value = Str(text: string) | Int(number: int) | List(items: seq<string>)

  /** A Python dict, whose entries keep their insertion order. */
  type OrderedDict = seq<(string, Value)>

  /** Why a stat reply could not be decoded; each is an exception the decoders let escape. */
  datatype DecodeError =
    | FieldCount                // unpacking the basic split into six targets fails
    | ShortPort                 // `struct.unpack('<h', ...)` gets fewer than 2 bytes
    | MarkerCount               // the full reply does not split into exactly two parts
    | MissingKey(key: string)   // a dict lookup raises `KeyError`
    | NotAnInteger(key: string) // `int()` raises `ValueError` on that key's value

  const BasicPrintOrder: seq<string> :=
    ["hostip", "hostport", "gametype", "motd", "map", "numplayers", "maxplayers"]

  const FullPrintOrder: seq<string> :=
    ["hostip", "hostport", "game_id", "gametype", "version", "server_mod", "plugins",
     "motd", "map", "numplayers", "maxplayers", "players"]

  function Keys(d: OrderedDict): (ks: seq<string>)
    ensures |ks| == |d| && forall i :: 0 <= i < |d| ==> ks[i] == d[i].0
  {
    if d == [] then [] else [d[0].0] + Keys(d[1..])
  }

  /**
   * `{key: src[key] for key in order if key in src}`: the entries of `src`
   * whose keys `order` lists, in that order.
   */
  function Reorder(order: seq<string>, src: map<string, Value>): (d: OrderedDict)
    ensures forall i :: 0 <= i < |d| ==> d[i].0 in src && d[i].1 == src[d[i].0]
    ensures (forall k :: k in order ==> k in src) ==> Keys(d) == order
  {
    if order == [] then []
    else
      var rest := Reorder(order[1..], src);
      assert forall k :: k in order[1..] ==> k in order;
      if order[0] in src then [(order[0], src[order[0]])] + rest else rest
  }
}
