/**
 * Decoding a full-stat reply (the part of `MCQuery.full_stat` after the
 * datagram arrives), and the reply a conforming server sends, as its inverse.
 */
module FullStat {
  import opened Wrappers
  import opened Bytes
  import opened PyStr
  import opened Decimal
  import opened Record

  /** The values a full-stat reply carries, with the plugins field already split. */
  datatype FullStatus = FullStatus(
    motd: string, gametype: string, gameId: string, version: string,
    serverMod: string, plugins: seq<string>, mapName: string,
    numplayers: int, maxplayers: int, hostport: int, hostip: string,
    players: seq<string>)

  /** Bytes of padding before the key/value section. */
  const PaddingLength: nat := 11

  /** `b'\x00\x00\x01player_\x00\x00'`, which separates the key/value section from the player list. */
  const PlayerMarker: seq<byte> := [0x00, 0x00, 0x01, 0x70, 0x6C, 0x61, 0x79, 0x65, 0x72, 0x5F, 0x00, 0x00]

  /** `b'motd'`, written over the first 8 bytes (the key `hostname`) of the key/value section. */
  const MotdKey: seq<byte> := [0x6D, 0x6F, 0x74, 0x64]

  /** `full_info_dict`: each key of the full-stat result bound to its field. */
  function FullInfo(st: FullStatus): (m: map<string, Value>)
    ensures forall k :: k in FullPrintOrder ==> k in m
  {
    map[
      "game_id" := Str(st.gameId),
      "gametype" := Str(st.gametype),
      "hostip" := Str(st.hostip),
      "hostport" := Int(st.hostport),
      "map" := Str(st.mapName),
      "maxplayers" := Int(st.maxplayers),
      "motd" := Str(st.motd),
      "numplayers" := Int(st.numplayers),
      "players" := List(st.players),
      "plugins" := List(st.plugins),
      "server_mod" := Str(st.serverMod),
      "version" := Str(st.version)]
  }

  /** The dict `full_stat` returns for a decoded status: every field, keys in `FULLSTAT_PRINT_ORDER`. */
  function FullRecord(st: FullStatus): (d: OrderedDict)
    ensures Keys(d) == FullPrintOrder
    ensures forall i :: 0 <= i < |d| ==> d[i].1 == FullInfo(st)[d[i].0]
  {
    Reorder(FullPrintOrder, FullInfo(st))
  }

  /** `k` stands at an even position of `t` with a value after it. */
  ghost predicate KeyAt(t: seq<string>, j: int, k: string) {
    0 <= j && j + 1 < |t| && j % 2 == 0 && t[j] == k
  }

  /**
   * `dict(zip(t[::2], t[1::2]))`: even positions are keys, the odd position
   * after each is its value, an unpaired last token is dropped, and a repeated
   * key keeps its last value.
   */
  function PairUp(t: seq<string>): (m: map<string, string>)
    ensures |t| >= 2 ==> t[0] in m
  {
    if |t| < 2 then map[] else map[t[0] := t[1]] + PairUp(t[2..])
  }

  /** The keys of the pairing are exactly the tokens at even positions with a value after them. */
  lemma {:induction false} PairUpKeys(t: seq<string>)
    ensures forall k :: k in PairUp(t) <==> exists j :: KeyAt(t, j, k)
  {
    if |t| >= 2 {
      PairUpKeys(t[2..]);
      forall k ensures k in PairUp(t) <==> exists j :: KeyAt(t, j, k) {
        if k == t[0] {
          assert KeyAt(t, 0, k);
        } else {
          if k in PairUp(t[2..]) {
            var j :| KeyAt(t[2..], j, k);
            assert KeyAt(t, j + 2, k);
          }
          if exists j :: KeyAt(t, j, k) {
            var j :| KeyAt(t, j, k);
            assert j >= 2 && KeyAt(t[2..], j - 2, k);
          }
        }
      }
    }
  }

  /** A key's value is the one after its last occurrence as a key. */
  lemma {:induction false} PairUpLast(t: seq<string>, j: int)
    requires 0 <= j < |t| && KeyAt(t, j, t[j])
    requires forall i :: j < i ==> !KeyAt(t, i, t[j])
    ensures t[j] in PairUp(t) && PairUp(t)[t[j]] == t[j + 1]
  {
    var k := t[j];
    var rest := t[2..];
    PairUpKeys(rest);
    if k in PairUp(rest) {
      var i :| KeyAt(rest, i, k);
      assert KeyAt(t, i + 2, k);
    }
    if j > 0 {
      assert KeyAt(rest, j - 2, k);
      forall i | j - 2 < i ensures !KeyAt(rest, i, k) {
        assert !KeyAt(t, i + 2, k);
      }
      PairUpLast(rest, j - 2);
    }
  }

  /** `s.split(': ', 1)` into the server mod and, after it, the `'; '`-separated plugin list. */
  function SplitPlugins(raw: string): (r: (string, seq<string>))
    ensures JoinPlugins(r.0, r.1) == raw
    ensures SepFree(r.0, ": ") && forall i :: 0 <= i < |r.1| ==> SepFree(r.1[i], "; ")
  {
    var s := SplitN(raw, ": ", 1);
    if |s| == 1 then (s[0], [])
    else
      NoEarlyMatchSepFree(s[0], ": ");
      (s[0], Split(s[1], "; "))
  }

  /** The raw `plugins` value a server sends: the mod, then `': '` and the plugins joined by `'; '` if there are any. */
  function JoinPlugins(serverMod: string, plugins: seq<string>): string {
    if plugins == [] then serverMod else serverMod + ": " + Join(plugins, "; ")
  }

  /** Splitting the raw `plugins` value recovers the mod and every plugin. */
  lemma PluginsRoundTrip(serverMod: string, plugins: seq<string>)
    requires SepFree(serverMod, ": ")
    requires forall i :: 0 <= i < |plugins| ==> SepFree(plugins[i], "; ")
    ensures SplitPlugins(JoinPlugins(serverMod, plugins)) == (serverMod, plugins)
  {
    UnborderedPair(':', ' ');
    UnborderedNoEarlyMatch(serverMod, ": ");
    if plugins == [] {
      SplitNSepFree(serverMod, ": ", 1);
    } else {
      SplitNCons(serverMod, ": ", Join(plugins, "; "), 1);
      UnborderedPair(';', ' ');
      forall i | 0 <= i < |plugins| - 1 ensures NoEarlyMatch(plugins[i], "; ") {
        UnborderedNoEarlyMatch(plugins[i], "; ");
      }
      SplitJoin(plugins, "; ");
    }
  }

  function TextField(data: map<string, string>, key: string): (r: Result<string, DecodeError>)
    ensures r.Ok? <==> key in data
    ensures r.Ok? ==> r.value == data[key]
    ensures r.Err? ==> r.error == MissingKey(key)
  {
    if key in data then Ok(data[key]) else Err(MissingKey(key))
  }

  /** `data[key] = int(data[key])`: `KeyError` if absent, `ValueError` if not a decimal. */
  function IntField(data: map<string, string>, key: string): (r: Result<int, DecodeError>)
    ensures r.Ok? <==> key in data && ParseInt(data[key]).Some?
    ensures r.Ok? ==> Some(r.value) == ParseInt(data[key])
  {
    if key !in data then Err(MissingKey(key))
    else match ParseInt(data[key])
      case None => Err(NotAnInteger(key))
      case Some(n) => Ok(n)
  }

  /**
   * Drop the padding and split once around the player marker; the part before
   * it holds the key/value tokens, the part after it the player names.
   */
  function ParseFull(buff: seq<byte>): (r: Result<FullStatus, DecodeError>)
    ensures r.Ok? ==> !SepFree(Drop(buff, PaddingLength), PlayerMarker)
    ensures r.Ok? ==> SepFree(r.value.serverMod, ": ")
    ensures r.Ok? ==> forall i :: 0 <= i < |r.value.players| ==> '\0' !in r.value.players[i]
    ensures var h := Split(Drop(buff, PaddingLength), PlayerMarker);
      && (r == Err(MarkerCount) <==> |h| != 2)
      && (|h| == 2 ==> r == ReadFields(KeyValues(h[0]), PlayerList(h[1])))
  {
    var halves := Split(Drop(buff, PaddingLength), PlayerMarker);
    if |halves| != 2 then Err(MarkerCount)
    else
      JoinMarkerPieces(halves);
      ReadFields(KeyValues(halves[0]), PlayerList(halves[1]))
  }

  /**
   * Write `motd` over the first 8 bytes (the key `hostname`), split on NUL and
   * pair the tokens up. The overwrite is the same on the decoded text, and a
   * section of at most 8 bytes leaves the lone token `motd`, which pairs with
   * nothing.
   */
  function KeyValues(section: seq<byte>): (data: map<string, string>)
    ensures data == PairUp(Split("motd" + Drop(Latin1Decode(section), 8), "\0"))
    ensures |section| <= 8 ==> data == map[]
  {
    MotdSection(section);
    SingleSep("motd", '\0');
    SplitNSepFree("motd", "\0", -1);
    PairUp(Split(Latin1Decode(MotdKey + Drop(section, 8)), "\0"))
  }

  /** Writing `motd` over the first 8 bytes is writing it over the first 8 decoded characters. */
  lemma MotdSection(section: seq<byte>)
    ensures Latin1Decode(MotdKey + Drop(section, 8)) == "motd" + Drop(Latin1Decode(section), 8)
  {
    DecodeAppend(MotdKey, Drop(section, 8));
    assert Latin1Decode(MotdKey) == "motd";
    if |section| > 8 {
      DecodeSlice(section, 8, |section|);
      assert Drop(section, 8) == section[8..|section|];
    }
  }

  /** Drop the last 2 bytes and split on NUL, unless nothing is left. */
  function PlayerList(section: seq<byte>): (players: seq<string>)
    ensures forall i :: 0 <= i < |players| ==> '\0' !in players[i]
  {
    var names := DropLast(section, 2);
    var players := if |names| > 0 then Split(Latin1Decode(names), "\0") else [];
    NulFreePieces(players);
    players
  }

  /** Convert the three integer fields, split the plugins field, then look up the text fields, in the client's order. */
  function ReadFields(data: map<string, string>, players: seq<string>): (r: Result<FullStatus, DecodeError>)
    ensures r.Ok? <==>
      && "numplayers" in data && "maxplayers" in data && "hostport" in data && "plugins" in data
      && "game_id" in data && "gametype" in data && "hostip" in data && "map" in data
      && "motd" in data && "version" in data
      && ParseInt(data["numplayers"]).Some? && ParseInt(data["maxplayers"]).Some?
      && ParseInt(data["hostport"]).Some?
    ensures r.Ok? ==>
      && Some(r.value.numplayers) == ParseInt(data["numplayers"])
      && Some(r.value.maxplayers) == ParseInt(data["maxplayers"])
      && Some(r.value.hostport) == ParseInt(data["hostport"])
      && JoinPlugins(r.value.serverMod, r.value.plugins) == data["plugins"]
      && r.value.gameId == data["game_id"] && r.value.gametype == data["gametype"]
      && r.value.hostip == data["hostip"] && r.value.mapName == data["map"]
      && r.value.motd == data["motd"] && r.value.version == data["version"]
    ensures r.Ok? ==> r.value.players == players && SepFree(r.value.serverMod, ": ")
    ensures r.Err? ==> r.error.MissingKey? || r.error.NotAnInteger?
  {
    var numplayers :- IntField(data, "numplayers");
    var maxplayers :- IntField(data, "maxplayers");
    var hostport :- IntField(data, "hostport");
    var raw :- TextField(data, "plugins");
    var (serverMod, plugins) := SplitPlugins(raw);
    var gameId :- TextField(data, "game_id");
    var gametype :- TextField(data, "gametype");
    var hostip :- TextField(data, "hostip");
    var mapName :- TextField(data, "map");
    var motd :- TextField(data, "motd");
    var version :- TextField(data, "version");
    Ok(FullStatus(motd, gametype, gameId, version, serverMod, plugins, mapName,
                  numplayers, maxplayers, hostport, hostip, players))
  }

  /** `MCQuery.full_stat`'s result for a reply payload. */
  function DecodeFull(buff: seq<byte>): (r: Result<OrderedDict, DecodeError>)
    ensures r.Ok? ==> Keys(r.value) == FullPrintOrder
    ensures r.Err? <==> ParseFull(buff).Err?
    ensures r.Ok? ==> r.value == FullRecord(ParseFull(buff).value)
    ensures r.Err? ==> r.error == ParseFull(buff).error
  {
    var st :- ParseFull(buff);
    Ok(FullRecord(st))
  }

  /** Pieces of a NUL split hold no NUL. */
  lemma NulFreePieces(ps: seq<string>)
    requires forall i :: 0 <= i < |ps| ==> SepFree(ps[i], "\0")
    ensures forall i :: 0 <= i < |ps| ==> '\0' !in ps[i]
  {
    forall i, j | 0 <= i < |ps| && 0 <= j < |ps[i]| ensures ps[i][j] != '\0' {
      assert !OccursAt(ps[i], "\0", j);
      assert ps[i][j..j + 1] == [ps[i][j]];
    }
  }

  /** Two pieces joined around the marker contain the marker. */
  lemma JoinMarkerPieces(halves: seq<seq<byte>>)
    requires |halves| == 2
    ensures !SepFree(Join(halves, PlayerMarker), PlayerMarker)
  {
    var s := Join(halves, PlayerMarker);
    assert Join(halves[1..], PlayerMarker) == halves[1];
    assert s[|halves[0]|..|halves[0]| + |PlayerMarker|] == PlayerMarker;
    assert OccursAt(s, PlayerMarker, |halves[0]|);
  }

  /**
   * A payload that decodes is cut at one player marker after the padding: no
   * marker starts inside the part before the cut or inside the part after it
   * (a marker that overlaps the cut itself is not excluded).
   */
  lemma MarkerOnce(buff: seq<byte>)
    requires ParseFull(buff).Ok?
    ensures exists front, back :: Drop(buff, PaddingLength) == front + PlayerMarker + back
                                  && SepFree(front, PlayerMarker) && SepFree(back, PlayerMarker)
  {
    var halves := Split(Drop(buff, PaddingLength), PlayerMarker);
    assert Join(halves[1..], PlayerMarker) == halves[1];
    assert Drop(buff, PaddingLength) == halves[0] + PlayerMarker + halves[1];
  }

  /** Where the padded payload has no player marker, decoding fails on the split. */
  lemma MissingMarker(buff: seq<byte>)
    requires SepFree(Drop(buff, PaddingLength), PlayerMarker)
    ensures ParseFull(buff) == Err(MarkerCount)
    ensures DecodeFull(buff) == Err(MarkerCount)
  {
  }

  /**
   * A payload whose key/value and player sections are both empty splits
   * around the marker, and then fails on the first lookup, `numplayers`.
   */
  lemma EmptySections(pad: seq<byte>)
    requires |pad| == PaddingLength
    ensures ParseFull(pad + PlayerMarker) == Err(MissingKey("numplayers"))
  {
    var h: seq<seq<byte>> := [[], []];
    assert Join(h, PlayerMarker) == PlayerMarker;
    SplitJoin(h, PlayerMarker);
    assert Drop(pad + PlayerMarker, PaddingLength) == PlayerMarker;
  }

  /** Text a conforming server's fields never contain. */
  ghost predicate PlainText(s: string) {
    IsLatin1(s) && '\0' !in s && '\U{1}' !in s
  }

  /** A status a server can send so that the client reads every field back unchanged. */
  ghost predicate Sendable(st: FullStatus) {
    && PlainText(st.motd) && PlainText(st.gametype) && PlainText(st.gameId) && PlainText(st.version)
    && PlainText(st.serverMod) && PlainText(st.mapName) && PlainText(st.hostip)
    && (forall i :: 0 <= i < |st.plugins| ==> PlainText(st.plugins[i]))
    && (forall i :: 0 <= i < |st.players| ==> PlainText(st.players[i]))
    && SepFree(st.serverMod, ": ")
    && (forall i :: 0 <= i < |st.plugins| ==> SepFree(st.plugins[i], "; "))
    && st.players != [""]
  }

  /** The key/value tokens after the MOTD pair, in the order a server sends them. */
  function LaterTokens(st: FullStatus): seq<string> {
    ["gametype", st.gametype] + (["game_id", st.gameId] + (["version", st.version] +
    (["plugins", JoinPlugins(st.serverMod, st.plugins)] + (["map", st.mapName] +
    (["numplayers", ShowInt(st.numplayers)] + (["maxplayers", ShowInt(st.maxplayers)] +
    (["hostport", ShowInt(st.hostport)] + ["hostip", st.hostip])))))))
  }

  /** The key/value tokens a server sends, `hostname` (the MOTD) first. */
  function KeyValueTokens(st: FullStatus): seq<string> {
    ["hostname", st.motd] + LaterTokens(st)
  }

  /** The full-stat payload after the padding: key/value tokens, the player marker, NUL-terminated names, a final NUL. */
  function FullReplyText(st: FullStatus): string {
    Join(KeyValueTokens(st), "\0") + Latin1Decode(PlayerMarker) + Join(st.players, "\0") + "\0\0"
  }

  /** Decoding a conforming server's reply, after any 11 bytes of padding, gives back the status it encodes. */
  lemma FullRoundTrip(pad: seq<byte>, st: FullStatus)
    requires |pad| == PaddingLength && Sendable(st)
    ensures IsLatin1(FullReplyText(st))
    ensures ParseFull(pad + Latin1Encode(FullReplyText(st))) == Ok(st)
  {
    var kv := KeyValueTokens(st);
    var kvText := Join(kv, "\0");
    var plText := Join(st.players, "\0");
    TokensPlain(st);
    forall i | 0 <= i < |kv| ensures PlainText(kv[i]) {
      assert kv[i] in kv;
    }
    JoinPlain(kv, "\0");
    JoinPlain(st.players, "\0");
    var a := Latin1Encode(kvText);
    var b := Latin1Encode(plText + "\0\0");
    ReplyBytes(kvText, plText);
    var buff := pad + Latin1Encode(FullReplyText(st));
    assert Drop(buff, PaddingLength) == a + PlayerMarker + b;
    MarkerSplit(kvText, plText + "\0\0");
    KeyValueData(st, a);
    PlayerNames(st.players, b);
    ReadFieldsOf(KeyValues(a), st);
  }

  /** Encoded text without \x01 on both sides of the marker splits back into the two sides. */
  lemma MarkerSplit(x: string, y: string)
    requires IsLatin1(x) && '\U{1}' !in x && IsLatin1(y) && '\U{1}' !in y
    ensures Split(Latin1Encode(x) + PlayerMarker + Latin1Encode(y), PlayerMarker) == [Latin1Encode(x), Latin1Encode(y)]
  {
    SohFree(x);
    SohFree(y);
    SplitNCons(Latin1Encode(x), PlayerMarker, Latin1Encode(y), -1);
    SplitNSepFree(Latin1Encode(y), PlayerMarker, -1);
  }

  /** The key/value map holds each of the status's fields under its key. */
  ghost predicate Carries(data: map<string, string>, st: FullStatus) {
    && "motd" in data && "gametype" in data && "game_id" in data && "version" in data
    && "plugins" in data && "map" in data && "numplayers" in data && "maxplayers" in data
    && "hostport" in data && "hostip" in data
    && data["motd"] == st.motd && data["gametype"] == st.gametype && data["game_id"] == st.gameId
    && data["version"] == st.version && data["plugins"] == JoinPlugins(st.serverMod, st.plugins)
    && data["map"] == st.mapName && data["numplayers"] == ShowInt(st.numplayers)
    && data["maxplayers"] == ShowInt(st.maxplayers) && data["hostport"] == ShowInt(st.hostport)
    && data["hostip"] == st.hostip
  }

  /** A map carrying the status's fields reads back as that status. */
  lemma ReadFieldsOf(data: map<string, string>, st: FullStatus)
    requires Carries(data, st)
    requires SepFree(st.serverMod, ": ")
    requires forall i :: 0 <= i < |st.plugins| ==> SepFree(st.plugins[i], "; ")
    ensures ReadFields(data, st.players) == Ok(st)
  {
    ParseShow(st.numplayers);
    ParseShow(st.maxplayers);
    ParseShow(st.hostport);
    PluginsRoundTrip(st.serverMod, st.plugins);
  }

  /** Every key/value token is plain text, and so is every plugin entry joined into one. */
  lemma TokensPlain(st: FullStatus)
    requires Sendable(st)
    ensures forall t | t in KeyValueTokens(st) :: PlainText(t)
  {
    PluginsPlain(st.serverMod, st.plugins);
    ShowPlain(st.numplayers);
    ShowPlain(st.maxplayers);
    ShowPlain(st.hostport);
    KeysPlain();
  }

  lemma KeysPlain()
    ensures PlainText("hostname") && PlainText("gametype") && PlainText("game_id")
    ensures PlainText("version") && PlainText("plugins") && PlainText("map")
    ensures PlainText("numplayers") && PlainText("maxplayers") && PlainText("hostport") && PlainText("hostip")
  {
    KeysPlainFirst();
    KeysPlainLast();
  }

  lemma KeysPlainFirst()
    ensures PlainText("hostname") && PlainText("gametype") && PlainText("game_id")
    ensures PlainText("version") && PlainText("plugins")
  {
  }

  lemma KeysPlainLast()
    ensures PlainText("map")
    ensures PlainText("numplayers") && PlainText("maxplayers") && PlainText("hostport") && PlainText("hostip")
  {
  }

  lemma PluginsPlain(serverMod: string, plugins: seq<string>)
    requires PlainText(serverMod)
    requires forall i :: 0 <= i < |plugins| ==> PlainText(plugins[i])
    ensures PlainText(JoinPlugins(serverMod, plugins))
  {
    if plugins != [] {
      JoinPlain(plugins, "; ");
      JoinExcludes(plugins, "; ", '\0');
      PlainAppend(serverMod, ": ");
      PlainAppend(serverMod + ": ", Join(plugins, "; "));
    }
  }

  lemma ShowPlain(n: int)
    ensures PlainText(ShowInt(n))
  {
    var s := ShowInt(n);
    forall i | 0 <= i < |s| ensures s[i] != '\0' && s[i] != '\U{1}' && s[i] as int < 256 {
      assert IsDigit(s[i]) || s[i] == '-';
    }
  }

  lemma PlainAppend(a: string, b: string)
    requires PlainText(a) && PlainText(b)
    ensures PlainText(a + b)
  {
    Latin1Append(a, b);
  }

  /** Joining Latin-1 pieces around a Latin-1 separator without \x01 gives Latin-1 text without \x01. */
  lemma {:induction false} JoinPlain(ps: seq<string>, sep: string)
    requires IsLatin1(sep) && '\U{1}' !in sep
    requires forall i :: 0 <= i < |ps| ==> PlainText(ps[i])
    ensures IsLatin1(Join(ps, sep)) && '\U{1}' !in Join(ps, sep)
  {
    JoinExcludes(ps, sep, '\U{1}');
    if |ps| > 1 {
      JoinPlain(ps[1..], sep);
      Latin1Append(ps[0], sep);
      Latin1Append(ps[0] + sep, Join(ps[1..], sep));
    }
  }

  /** The encoded reply is the encoded key/value text, the marker, then the encoded player list. */
  lemma ReplyBytes(kvText: string, plText: string)
    requires IsLatin1(kvText) && IsLatin1(plText)
    ensures IsLatin1(kvText + Latin1Decode(PlayerMarker) + plText + "\0\0")
    ensures IsLatin1(plText + "\0\0")
    ensures Latin1Encode(kvText + Latin1Decode(PlayerMarker) + plText + "\0\0")
         == Latin1Encode(kvText) + PlayerMarker + Latin1Encode(plText + "\0\0")
  {
    Latin1Append(plText, "\0\0");
    var bytes := Latin1Encode(kvText) + PlayerMarker + Latin1Encode(plText + "\0\0");
    DecodeAppend(Latin1Encode(kvText), PlayerMarker);
    DecodeAppend(Latin1Encode(kvText) + PlayerMarker, Latin1Encode(plText + "\0\0"));
    assert Latin1Decode(bytes) == kvText + Latin1Decode(PlayerMarker) + plText + "\0\0";
    DecodeIsLatin1(bytes);
    EncodeDecode(bytes);
  }

  /** Bytes without \x01 never contain the marker, nor begin a match that runs into a following marker. */
  lemma SohFree(s: string)
    requires IsLatin1(s) && '\U{1}' !in s
    ensures NoEarlyMatch(Latin1Encode(s), PlayerMarker) && SepFree(Latin1Encode(s), PlayerMarker)
  {
    var a := Latin1Encode(s);
    assert forall i :: 0 <= i < |a| ==> a[i] != 1 by {
      forall i | 0 <= i < |a| ensures a[i] != 1 {
        assert Latin1Decode(a)[i] as int == a[i];
      }
    }
    forall j | 0 <= j < |a| ensures !OccursAt(a + PlayerMarker, PlayerMarker, j) {
      if j + 12 <= |a| + 12 {
        assert (a + PlayerMarker)[j..j + 12][2] == (a + PlayerMarker)[j + 2];
      }
    }
    forall j ensures !OccursAt(a, PlayerMarker, j) {
      if 0 <= j && j + 12 <= |a| {
        assert a[j..j + 12][2] == a[j + 2];
      }
    }
  }

  /** After the padding and the marker split, the key/value section pairs into the status's fields. */
  lemma KeyValueData(st: FullStatus, a: seq<byte>)
    requires forall t | t in KeyValueTokens(st) :: PlainText(t)
    requires IsLatin1(Join(KeyValueTokens(st), "\0")) && a == Latin1Encode(Join(KeyValueTokens(st), "\0"))
    ensures Carries(KeyValues(a), st)
  {
    KeyValueSplit(st, a);
    TokenMap(st);
  }

  /** The key/value section, with `motd` written over `hostname`, splits into the tokens with `motd` first. */
  lemma KeyValueSplit(st: FullStatus, a: seq<byte>)
    requires forall t | t in KeyValueTokens(st) :: PlainText(t)
    requires IsLatin1(Join(KeyValueTokens(st), "\0")) && a == Latin1Encode(Join(KeyValueTokens(st), "\0"))
    ensures Split(Latin1Decode(MotdKey + Drop(a, 8)), "\0") == ["motd", st.motd] + LaterTokens(st)
  {
    var tokens := ["motd", st.motd] + LaterTokens(st);
    MotdText(st);
    MotdSection(a);
    assert Drop(Latin1Decode(a), 8) == Join(KeyValueTokens(st), "\0")[8..];
    forall t | t in tokens ensures '\0' !in t {
      if t != "motd" { assert t in KeyValueTokens(st); }
    }
    SplitJoinNul(tokens);
  }

  /** Pairing the tokens with `motd` first gives a map that carries every field. */
  lemma TokenMap(st: FullStatus)
    ensures Carries(PairUp(["motd", st.motd] + LaterTokens(st)), st)
  {
    var m := LaterMap(st.gametype, st.gameId, st.version, JoinPlugins(st.serverMod, st.plugins), st.mapName,
                      ShowInt(st.numplayers), ShowInt(st.maxplayers), ShowInt(st.hostport), st.hostip);
    LaterPairs(st.gametype, st.gameId, st.version, JoinPlugins(st.serverMod, st.plugins), st.mapName,
               ShowInt(st.numplayers), ShowInt(st.maxplayers), ShowInt(st.hostport), st.hostip);
    LaterLookups(st);
    PairUpNew("motd", st.motd, LaterTokens(st), m);
  }

  /** With `motd` in place of `hostname`, the key/value text is the tokens joined with `motd` first. */
  lemma MotdText(st: FullStatus)
    ensures |Join(KeyValueTokens(st), "\0")| >= 8
    ensures "motd" + Join(KeyValueTokens(st), "\0")[8..] == Join(["motd", st.motd] + LaterTokens(st), "\0")
  {
    var rest := [st.motd] + LaterTokens(st);
    JoinCons("hostname", rest, "\0");
    JoinCons("motd", rest, "\0");
    assert ["hostname", st.motd] + LaterTokens(st) == ["hostname"] + rest;
    assert ["motd", st.motd] + LaterTokens(st) == ["motd"] + rest;
    var tail := "\0" + Join(rest, "\0");
    assert Join(KeyValueTokens(st), "\0") == "hostname" + tail;
    assert ("hostname" + tail)[8..] == tail;
  }

  /** Splitting NUL-joined tokens without NULs gives them back. */
  lemma SplitJoinNul(ps: seq<string>)
    requires |ps| >= 1
    requires forall t | t in ps :: '\0' !in t
    ensures Split(Join(ps, "\0"), "\0") == ps
  {
    forall i | 0 <= i < |ps| ensures NoEarlyMatch(ps[i], "\0") && SepFree(ps[i], "\0") {
      assert ps[i] in ps;
      SingleSep(ps[i], '\0');
    }
    SplitJoin(ps, "\0");
  }

  /** Joining after a first piece puts the separator right after it. */
  lemma JoinCons<T>(x: seq<T>, rest: seq<seq<T>>, sep: seq<T>)
    requires |rest| >= 1
    ensures Join([x] + rest, sep) == x + sep + Join(rest, sep)
  {
    assert ([x] + rest)[1..] == rest;
  }

  /** Pairing up starts with the first pair; later pairs override it. */
  lemma PairUpCons(k: string, v: string, rest: seq<string>)
    ensures PairUp([k, v] + rest) == map[k := v] + PairUp(rest)
  {
    assert ([k, v] + rest)[2..] == rest;
  }

  /** The map the pairs after the MOTD pair give: each key once, with its own value. */
  function LaterMap(gametype: string, gameId: string, version: string, plugins: string, mapName: string,
                    numplayers: string, maxplayers: string, hostport: string, hostip: string): map<string, string>
  {
    map["hostip" := hostip, "hostport" := hostport, "maxplayers" := maxplayers,
        "numplayers" := numplayers, "map" := mapName, "plugins" := plugins,
        "version" := version, "game_id" := gameId, "gametype" := gametype]
  }

  lemma LaterPairs(gametype: string, gameId: string, version: string, plugins: string, mapName: string,
                    np: string, mx: string, hp: string, ip: string)
    ensures PairUp(["gametype", gametype] + (["game_id", gameId] + (["version", version] +
                   (["plugins", plugins] + (["map", mapName] + (["numplayers", np] +
                   (["maxplayers", mx] + (["hostport", hp] + ["hostip", ip]))))))))
         == LaterMap(gametype, gameId, version, plugins, mapName, np, mx, hp, ip)
  {
    var r5 := ["numplayers", np] + (["maxplayers", mx] + (["hostport", hp] + ["hostip", ip]));
    var m5 := map["hostip" := ip, "hostport" := hp, "maxplayers" := mx, "numplayers" := np];
    var r2 := ["version", version] + (["plugins", plugins] + (["map", mapName] + r5));
    var m2 := m5["map" := mapName]["plugins" := plugins]["version" := version];
    assert PairUp(["gametype", gametype] + (["game_id", gameId] + r2)) == m2["game_id" := gameId]["gametype" := gametype] by {
      assert PairUp(r2) == m2 by {
        assert PairUp(r5) == m5 by { LastPairs(np, mx, hp, ip); }
        MiddlePairs(version, plugins, mapName, r5, m5);
      }
      FirstPairs(gametype, gameId, r2, m2);
    }
  }

  lemma FirstPairs(gametype: string, gameId: string, rest: seq<string>, m: map<string, string>)
    requires PairUp(rest) == m
    requires "game_id" !in m && "gametype" !in m
    ensures PairUp(["gametype", gametype] + (["game_id", gameId] + rest)) == m["game_id" := gameId]["gametype" := gametype]
  {
    PairUpNew("game_id", gameId, rest, m);
    PairUpNew("gametype", gametype, ["game_id", gameId] + rest, m["game_id" := gameId]);
  }

  lemma LastPairs(np: string, mx: string, hp: string, ip: string)
    ensures PairUp(["numplayers", np] + (["maxplayers", mx] + (["hostport", hp] + ["hostip", ip])))
         == map["hostip" := ip, "hostport" := hp, "maxplayers" := mx, "numplayers" := np]
  {
    var r8 := ["hostip", ip];
    assert r8 == ["hostip", ip] + [];
    PairUpNew("hostip", ip, [], map[]);
    var m8 := map["hostip" := ip];
    PairUpNew("hostport", hp, r8, m8);
    PairUpNew("maxplayers", mx, ["hostport", hp] + r8, m8["hostport" := hp]);
    PairUpNew("numplayers", np, ["maxplayers", mx] + (["hostport", hp] + r8), m8["hostport" := hp]["maxplayers" := mx]);
  }

  lemma MiddlePairs(version: string, plugins: string, mapName: string, rest: seq<string>, m: map<string, string>)
    requires PairUp(rest) == m
    requires "version" !in m && "plugins" !in m && "map" !in m
    ensures PairUp(["version", version] + (["plugins", plugins] + (["map", mapName] + rest)))
         == m["map" := mapName]["plugins" := plugins]["version" := version]
  {
    PairUpNew("map", mapName, rest, m);
    PairUpNew("plugins", plugins, ["map", mapName] + rest, m["map" := mapName]);
    PairUpNew("version", version, ["plugins", plugins] + (["map", mapName] + rest), m["map" := mapName]["plugins" := plugins]);
  }

  /** A key not paired later is added with its value. */
  lemma PairUpNew(k: string, v: string, rest: seq<string>, m: map<string, string>)
    requires PairUp(rest) == m && k !in m
    ensures PairUp([k, v] + rest) == m[k := v]
  {
    PairUpCons(k, v, rest);
  }

  /** The MOTD is not among the later keys, and with it added the map carries every field of the status. */
  lemma LaterLookups(st: FullStatus)
    ensures var m := LaterMap(st.gametype, st.gameId, st.version, JoinPlugins(st.serverMod, st.plugins),
                              st.mapName, ShowInt(st.numplayers), ShowInt(st.maxplayers),
                              ShowInt(st.hostport), st.hostip);
      "motd" !in m && Carries(m["motd" := st.motd], st)
  {
  }

  /** The player section, less its last 2 bytes, splits back into the names (none when the list is empty). */
  lemma PlayerNames(players: seq<string>, b: seq<byte>)
    requires forall i :: 0 <= i < |players| ==> PlainText(players[i])
    requires players != [""]
    requires IsLatin1(Join(players, "\0") + "\0\0") && b == Latin1Encode(Join(players, "\0") + "\0\0")
    ensures var names := DropLast(b, 2);
      (if |names| > 0 then Split(Latin1Decode(names), "\0") else []) == players
  {
    var text := Join(players, "\0");
    var names := DropLast(b, 2);
    assert Latin1Decode(names) == text by {
      DecodeSlice(b, 0, |b| - 2);
      assert names == b[0..|b| - 2];
    }
    if |names| > 0 {
      forall i | 0 <= i < |players| ensures NoEarlyMatch(players[i], "\0") && SepFree(players[i], "\0") {
        SingleSep(players[i], '\0');
      }
      assert players != [];
      SplitJoin(players, "\0");
    } else {
      JoinShape(players, "\0");
    }
  }
}
