/**
 * Decoding a basic-stat reply (the part of `MCQuery.basic_stat` after the
 * datagram arrives), and the reply a conforming server sends, as its inverse.
 */
module BasicStat {
  import opened Wrappers
  import opened Bytes
  import opened PyStr
  import opened Decimal
  import opened Record

  /** The seven values a basic-stat reply carries. */
  datatype BasicStatus = BasicStatus(
    motd: string, gametype: string, mapName: string,
    numplayers: int, maxplayers: int,
    hostport: int, hostip: string)

  /** The dict `basic_stat` returns for a decoded status, keys in `BASICSTAT_PRINT_ORDER`. */
  function BasicRecord(st: BasicStatus): (d: OrderedDict)
    ensures Keys(d) == BasicPrintOrder
    ensures d == [("hostip", Str(st.hostip)), ("hostport", Int(st.hostport)),
                  ("gametype", Str(st.gametype)), ("motd", Str(st.motd)), ("map", Str(st.mapName)),
                  ("numplayers", Int(st.numplayers)), ("maxplayers", Int(st.maxplayers))]
  {
    Reorder(BasicPrintOrder, map[
      "gametype" := Str(st.gametype),
      "hostip" := Str(st.hostip),
      "hostport" := Int(st.hostport),
      "map" := Str(st.mapName),
      "maxplayers" := Int(st.maxplayers),
      "motd" := Str(st.motd),
      "numplayers" := Int(st.numplayers)])
  }

  /**
   * The payload as text is split on NUL at most five times into motd,
   * gametype, map, numplayers and maxplayers plus a remainder; the remainder,
   * back as bytes, starts with the host port as a little-endian signed short
   * and ends with one byte that is dropped from the host name.
   */
  function ParseBasic(buff: seq<byte>): (r: Result<BasicStatus, DecodeError>)
    ensures r.Err? && r.error == FieldCount <==> multiset(buff)[0] < 5
    ensures var f := SplitN(Latin1Decode(buff), "\0", 5);
      && (r == Err(ShortPort) <==> |f| == 6 && |f[5]| < 2)
      && (r == Err(NotAnInteger("numplayers")) <==> |f| == 6 && |f[5]| >= 2 && ParseInt(f[3]).None?)
      && (r == Err(NotAnInteger("maxplayers")) <==>
            |f| == 6 && |f[5]| >= 2 && ParseInt(f[3]).Some? && ParseInt(f[4]).None?)
      && (r.Ok? <==> |f| == 6 && |f[5]| >= 2 && ParseInt(f[3]).Some? && ParseInt(f[4]).Some?)
    ensures var f := SplitN(Latin1Decode(buff), "\0", 5);
      r.Ok? ==> && r.value.motd == f[0] && r.value.gametype == f[1] && r.value.mapName == f[2]
                && Some(r.value.numplayers) == ParseInt(f[3]) && Some(r.value.maxplayers) == ParseInt(f[4])
    ensures r.Ok? ==> InInt16(r.value.hostport) && |r.value.hostip| < |buff|
    ensures r.Ok? ==> '\0' !in r.value.motd && '\0' !in r.value.gametype && '\0' !in r.value.mapName
  {
    var text := Latin1Decode(buff);
    var fields := SplitN(text, "\0", 5);
    SplitNCount(text, '\0', 5);
    DecodeCount(buff, 0);
    if |fields| != 6 then Err(FieldCount)
    else
      NoNulBeforeLast(fields);
      JoinIsLatin1(fields, "\0");
      var rest := Latin1Encode(fields[5]);
      if |rest| < 2 then Err(ShortPort)
      else
        var hostport := UnpackInt16LE(rest[..2]);
        var hostip := Latin1Decode(Drop(DropLast(rest, 1), 2));
        match ParseInt(fields[3])
        case None => Err(NotAnInteger("numplayers"))
        case Some(numplayers) =>
          match ParseInt(fields[4])
          case None => Err(NotAnInteger("maxplayers"))
          case Some(maxplayers) =>
            JoinLength(fields, "\0");
            Ok(BasicStatus(fields[0], fields[1], fields[2], numplayers, maxplayers, hostport, hostip))
  }

  /** `MCQuery.basic_stat`'s result for a reply payload. */
  function DecodeBasic(buff: seq<byte>): (r: Result<OrderedDict, DecodeError>)
    ensures r.Ok? ==> Keys(r.value) == BasicPrintOrder
    ensures r.Err? <==> ParseBasic(buff).Err?
    ensures r.Ok? ==> r.value == BasicRecord(ParseBasic(buff).value)
    ensures r.Err? ==> r.error == ParseBasic(buff).error
  {
    var st :- ParseBasic(buff);
    Ok(BasicRecord(st))
  }

  /** The non-last pieces of a NUL split hold no NUL. */
  lemma NoNulBeforeLast(fields: seq<string>)
    requires forall i :: 0 <= i < |fields| - 1 ==> NoEarlyMatch(fields[i], "\0")
    ensures forall i :: 0 <= i < |fields| - 1 ==> '\0' !in fields[i]
  {
    forall i | 0 <= i < |fields| - 1 ensures '\0' !in fields[i] {
      NoEarlyMatchSepFree(fields[i], "\0");
      forall j | 0 <= j < |fields[i]| ensures fields[i][j] != '\0' {
        assert !OccursAt(fields[i], "\0", j);
        assert fields[i][j..j + 1] == [fields[i][j]];
      }
    }
  }

  /** Pieces of Latin-1 text are Latin-1 text. */
  lemma {:induction false} JoinIsLatin1(ps: seq<string>, sep: string)
    requires IsLatin1(Join(ps, sep))
    ensures forall i :: 0 <= i < |ps| ==> IsLatin1(ps[i])
  {
    if |ps| > 1 {
      var j := Join(ps, sep);
      assert j == ps[0] + sep + Join(ps[1..], sep);
      assert j[|ps[0]| + |sep|..] == Join(ps[1..], sep);
      JoinIsLatin1(ps[1..], sep);
      assert j[..|ps[0]|] == ps[0];
      forall i | 1 <= i < |ps| ensures IsLatin1(ps[i]) {
        assert ps[i] == ps[1..][i - 1];
      }
    }
  }

  /** Every piece is at most as long as the joined text. */
  lemma {:induction false} JoinLength<T>(ps: seq<seq<T>>, sep: seq<T>)
    ensures forall i :: 0 <= i < |ps| ==> |ps[i]| <= |Join(ps, sep)|
  {
    if |ps| > 1 {
      JoinLength(ps[1..], sep);
      assert forall i :: 1 <= i < |ps| ==> ps[i] == ps[1..][i - 1];
    }
  }

  /** A status a server can send so that the client reads every field back unchanged. */
  ghost predicate Sendable(st: BasicStatus) {
    && IsLatin1(st.motd) && IsLatin1(st.gametype) && IsLatin1(st.mapName) && IsLatin1(st.hostip)
    && '\0' !in st.motd && '\0' !in st.gametype && '\0' !in st.mapName
    && InInt16(st.hostport)
  }

  /** The basic-stat payload a server sends for `st`, as Latin-1 text. */
  function BasicReplyText(st: BasicStatus): string
    requires InInt16(st.hostport)
  {
    st.motd + "\0" + (st.gametype + "\0" + (st.mapName + "\0" +
      (ShowInt(st.numplayers) + "\0" + (ShowInt(st.maxplayers) + "\0" +
      (Latin1Decode(PackInt16LE(st.hostport)) + st.hostip + "\0")))))
  }

  /** Decoding a conforming server's reply gives back the status it encodes. */
  lemma BasicRoundTrip(st: BasicStatus)
    requires Sendable(st)
    ensures IsLatin1(BasicReplyText(st))
    ensures ParseBasic(Latin1Encode(BasicReplyText(st))) == Ok(st)
  {
    var text := BasicReplyText(st);
    BasicReplyLatin1(st);
    var buff := Latin1Encode(text);
    assert Latin1Decode(buff) == text;
    var tail := Latin1Decode(PackInt16LE(st.hostport)) + st.hostip + "\0";
    BasicReplyFields(st);
    PortAndHost(st.hostport, st.hostip);
    ParseShow(st.numplayers);
    ParseShow(st.maxplayers);
  }

  lemma BasicReplyLatin1(st: BasicStatus)
    requires Sendable(st)
    ensures IsLatin1(BasicReplyText(st))
  {
    PortAndHost(st.hostport, st.hostip);
    var tail := Latin1Decode(PackInt16LE(st.hostport)) + st.hostip + "\0";
    Latin1Append(ShowInt(st.maxplayers) + "\0", tail);
    var maxp := ShowInt(st.maxplayers) + "\0" + tail;
    Latin1Append(ShowInt(st.numplayers) + "\0", maxp);
    var nump := ShowInt(st.numplayers) + "\0" + maxp;
    Latin1Append(st.mapName + "\0", nump);
    var mapn := st.mapName + "\0" + nump;
    Latin1Append(st.gametype + "\0", mapn);
    var gt := st.gametype + "\0" + mapn;
    Latin1Append(st.motd + "\0", gt);
  }

  /** The reply splits at its five NULs into the five text fields and the port-and-host tail. */
  lemma BasicReplyFields(st: BasicStatus)
    requires Sendable(st)
    ensures var f := SplitN(BasicReplyText(st), "\0", 5);
      && |f| == 6 && f[0] == st.motd && f[1] == st.gametype && f[2] == st.mapName
      && f[3] == ShowInt(st.numplayers) && f[4] == ShowInt(st.maxplayers)
      && f[5] == Latin1Decode(PackInt16LE(st.hostport)) + st.hostip + "\0"
  {
    var tail := Latin1Decode(PackInt16LE(st.hostport)) + st.hostip + "\0";
    var maxp := ShowInt(st.maxplayers) + "\0" + tail;
    var nump := ShowInt(st.numplayers) + "\0" + maxp;
    var mapn := st.mapName + "\0" + nump;
    var gt := st.gametype + "\0" + mapn;
    SingleSep(st.motd, '\0');
    SingleSep(st.gametype, '\0');
    SingleSep(st.mapName, '\0');
    SingleSep(ShowInt(st.numplayers), '\0');
    SingleSep(ShowInt(st.maxplayers), '\0');
    SplitNCons(ShowInt(st.maxplayers), "\0", tail, 1);
    SplitNCons(ShowInt(st.numplayers), "\0", maxp, 2);
    SplitNCons(st.mapName, "\0", nump, 3);
    SplitNCons(st.gametype, "\0", mapn, 4);
    SplitNCons(st.motd, "\0", gt, 5);
  }

  /** The reply's tail, back as bytes, holds the packed port, then the host name, then a NUL. */
  lemma PortAndHost(port: int, hostip: string)
    requires InInt16(port) && IsLatin1(hostip)
    ensures IsLatin1(Latin1Decode(PackInt16LE(port)) + hostip + "\0")
    ensures var rest := Latin1Encode(Latin1Decode(PackInt16LE(port)) + hostip + "\0");
      |rest| >= 2 && UnpackInt16LE(rest[..2]) == port && Latin1Decode(Drop(DropLast(rest, 1), 2)) == hostip
  {
    var packed := PackInt16LE(port);
    var tail := Latin1Decode(packed) + hostip + "\0";
    DecodeIsLatin1(packed);
    Latin1Append(Latin1Decode(packed), hostip);
    Latin1Append(Latin1Decode(packed) + hostip, "\0");
    var rest := Latin1Encode(tail);
    assert rest[..2] == packed;
    UnpackPackInt16(port);
    assert Latin1Decode(Drop(DropLast(rest, 1), 2)) == hostip;
  }
}
