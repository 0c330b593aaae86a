/** The two conversions of KadcCodec undo each other. */
module KadcRoundTrip {
  import opened Wrappers
  import opened Numerals
  import opened KadcCodec

  lemma WordAtBytes(b: seq<byte>, i: nat, w: word)
    requires i + 4 <= |b| && b[i..i + 4] == Bytes(w)
    ensures WordAt(b, i) == w
  {
    JoinBytes(w);
    var s := b[i..i + 4];
    assert b[i] == s[0] && b[i + 1] == s[1] && b[i + 2] == s[2] && b[i + 3] == s[3];
  }

  lemma RecordFields(c: Contact)
    ensures var r := Record(c);
            && r[0..4] == Bytes(c.id[0]) && r[4..8] == Bytes(c.id[1]) && r[8..12] == Bytes(c.id[2]) && r[12..16] == Bytes(c.id[3])
            && r[16..20] == Bytes(c.ip) && r[20..22] == HalfBytes(c.port) && r[22] == c.kind
  {
  }

  lemma HalfAtBytes(b: seq<byte>, i: nat, h: half)
    requires i + 2 <= |b| && b[i..i + 2] == HalfBytes(h)
    ensures HalfAt(b, i) == h
  {
    var s := b[i..i + 2];
    assert b[i] == s[0] && b[i + 1] == s[1];
  }

  lemma SliceOfSlice(b: seq<byte>, i: nat, r: seq<byte>, lo: nat, hi: nat)
    requires i + |r| <= |b| && b[i..i + |r|] == r
    requires lo <= hi <= |r|
    ensures r[lo..hi] == b[i + lo..i + hi]
  {
    forall k | lo <= k < hi
      ensures r[k] == b[i + k]
    {
      assert b[i..i + |r|][k] == b[i + k];
    }
  }

  lemma ContactAtRecord(b: seq<byte>, i: nat, c: Contact)
    requires i + RECORD_SIZE <= |b| && b[i..i + RECORD_SIZE] == Record(c)
    ensures ContactAt(b, i) == c
  {
    hide Record, Bytes, HalfBytes, WordAt, HalfAt;
    RecordFields(c);
    var r := b[i..i + RECORD_SIZE];
    SliceOfSlice(b, i, r, 0, 4);
    SliceOfSlice(b, i, r, 4, 8);
    SliceOfSlice(b, i, r, 8, 12);
    SliceOfSlice(b, i, r, 12, 16);
    SliceOfSlice(b, i, r, 16, 20);
    SliceOfSlice(b, i, r, 20, 22);
    assert r[22] == b[i + 22];
    WordAtBytes(b, i, c.id[0]);
    WordAtBytes(b, i + 4, c.id[1]);
    WordAtBytes(b, i + 8, c.id[2]);
    WordAtBytes(b, i + 12, c.id[3]);
    WordAtBytes(b, i + 16, c.ip);
    HalfAtBytes(b, i + 20, c.port);
    assert c.id == [c.id[0], c.id[1], c.id[2], c.id[3]];
  }

  lemma {:induction false} RecordSlice(cs: seq<Contact>, k: nat)
    requires k < |cs|
    ensures Records(cs)[k * RECORD_SIZE..(k + 1) * RECORD_SIZE] == Record(cs[k])
    decreases |cs|
  {
    hide Record;
    var front := cs[..|cs| - 1];
    if k < |front| {
      RecordSlice(front, k);
      assert Records(cs)[k * RECORD_SIZE..(k + 1) * RECORD_SIZE] == Records(front)[k * RECORD_SIZE..(k + 1) * RECORD_SIZE];
    }
  }

  /** Reading a contact file gives the contacts it was made from. */
  lemma FileIsRead(cs: seq<Contact>)
    requires |cs| <= INT_MAX
    ensures var b := ContactFile(cs);
            Signed(WordAt(b, 0)) == |cs| && Complete(b) == |cs| && ContactsIn(b, |cs|) == cs
  {
    hide Record, ContactAt;
    var b := ContactFile(cs);
    assert b[0..4] == Bytes(|cs|);
    WordAtBytes(b, 0, |cs|);
    forall k | 0 <= k < |cs|
      ensures ContactAt(b, COUNT_SIZE + k * RECORD_SIZE) == cs[k]
    {
      var i := COUNT_SIZE + k * RECORD_SIZE;
      RecordSlice(cs, k);
      assert b[i..i + RECORD_SIZE] == Records(cs)[k * RECORD_SIZE..(k + 1) * RECORD_SIZE];
      ContactAtRecord(b, i, cs[k]);
    }
  }

  lemma EndianityTwice(w: word)
    ensures ChangeLongEndianity(ChangeLongEndianity(w)) == w
  {
    var b := Bytes(w);
    BytesJoin(b[3], b[2], b[1], b[0]);
    JoinBytes(w);
  }

  /** The bytes of the printed address, put together again, are the address. */
  lemma QuadJoins(w: word)
    ensures var b := Bytes(w); Join(b[0] % 0x100, b[1] % 0x100, b[2] % 0x100, b[3] % 0x100) == w
  {
    JoinBytes(w);
  }

  lemma Quarters(a: string, b: string, c: string, d: string, rest: string)
    requires |a| == |b| == |c| == |d| == 8
    ensures var s := a + b + c + d + rest;
            s[0..8] == a && s[8..16] == b && s[16..24] == c && s[24..32] == d && s[32..] == rest
  {
  }

  lemma HexChunks(id: ContactId, rest: string)
    ensures var line := HexId(id) + rest;
            && HexChunk(line, 0) == id[0] && HexChunk(line, 1) == id[1] && HexChunk(line, 2) == id[2] && HexChunk(line, 3) == id[3]
            && line[32..] == rest
  {
    hide Hex, HexWord;
    Quarters(Hex(id[0], 8), Hex(id[1], 8), Hex(id[2], 8), Hex(id[3], 8), rest);
    HexWordHex(id[0]);
    HexWordHex(id[1]);
    HexWordHex(id[2]);
    HexWordHex(id[3]);
  }

  lemma ExpectTakes(c: char, x: char, s: string)
    ensures Expect([x] + s, c) == if x == c then Some(s) else None
  {
    assert ([x] + s)[1..] == s;
  }

  lemma KindTaken(k: byte)
    ensures TakeKind(Dec(k)) == k
  {
    assert Dec(k) + "" == Dec(k);
    TakeDecDec(k, "", 0x1_0000_0000);
  }

  lemma QuadTaken(w: word, rest: string)
    requires rest != "" ==> !IsDigit(rest[0])
    ensures TakeQuad(DottedQuad(w) + rest) == Some((w, rest))
  {
    hide Dec, TakeDec, Expect, Join, Bytes;
    var b := Bytes(w);
    var s6 := Dec(b[0]) + rest;
    var s4 := Dec(b[1]) + ("." + s6);
    var s2 := Dec(b[2]) + ("." + s4);
    var s := Dec(b[3]) + ("." + s2);
    assert DottedQuad(w) + rest == s;
    TakeDecDec(b[3], "." + s2, 0x1_0000_0000);
    ExpectTakes('.', '.', s2);
    TakeDecDec(b[2], "." + s4, 0x1_0000_0000);
    ExpectTakes('.', '.', s4);
    TakeDecDec(b[1], "." + s6, 0x1_0000_0000);
    ExpectTakes('.', '.', s6);
    TakeDecDec(b[0], rest, 0x1_0000_0000);
    QuadJoins(w);
  }

  /** Every printed line is read back as the contact it was printed from. */
  lemma LineIsParsed(c: Contact)
    ensures ParseLine(Line(c)) == Some(c)
  {
    hide HexId, HexChunk, Dec, TakeDec, TakeKind, TakeQuad, DottedQuad, Expect, ChangeLongEndianity;
    var w := ChangeLongEndianity(c.ip);
    var s5 := Dec(c.kind);
    var s3 := Dec(c.port) + (" " + s5);
    var s1 := DottedQuad(w) + (" " + s3);
    var line := HexId(c.id) + (" " + s1);
    assert Line(c) == line;
    assert line[32..] == " " + s1;
    ExpectTakes(' ', ' ', s1);
    QuadTaken(w, " " + s3);
    ExpectTakes(' ', ' ', s3);
    TakeDecDec(c.port, " " + s5, 0x1_0000);
    ExpectTakes(' ', ' ', s5);
    KindTaken(c.kind);
    HexChunks(c.id, " " + s1);
    EndianityTwice(c.ip);
    assert c.id == [c.id[0], c.id[1], c.id[2], c.id[3]];
  }

  lemma PlainConcat(a: string, b: string)
    ensures '\n' !in a + b <==> '\n' !in a && '\n' !in b
  {
  }

  lemma HexIdIsPlain(id: ContactId)
    ensures '\n' !in HexId(id) && HexId(id)[0] in HEX
  {
    hide Hex;
    HexInDigits(id[0], 8);
    HexInDigits(id[1], 8);
    HexInDigits(id[2], 8);
    HexInDigits(id[3], 8);
  }

  lemma QuadIsPlain(w: word)
    ensures '\n' !in DottedQuad(w)
  {
  }

  /** A printed line stays one line, and is neither a comment nor a section head. */
  lemma LineIsPlain(c: Contact)
    ensures Line(c) != "" && Line(c)[0] != '#' && Line(c)[0] != '[' && '\n' !in Line(c)
  {
    hide HexId, DottedQuad, Dec, ChangeLongEndianity;
    HexIdIsPlain(c.id);
    QuadIsPlain(ChangeLongEndianity(c.ip));
    var tail := " " + (Dec(c.port) + (" " + Dec(c.kind)));
    PlainConcat(DottedQuad(ChangeLongEndianity(c.ip)), tail);
    var rest := " " + (DottedQuad(ChangeLongEndianity(c.ip)) + tail);
    PlainConcat(HexId(c.id), rest);
    assert Line(c) == HexId(c.id) + rest;
    assert Line(c)[0] == HexId(c.id)[0];
  }

  lemma LineLengthIs(line: string, rest: string)
    requires '\n' !in line
    ensures LineLength(line + "\n" + rest) == |line|
  {
    var text := line + "\n" + rest;
    var k := LineLength(text);
    assert text[|line|] == '\n';
    assert forall i :: 0 <= i < |line| ==> text[i] == line[i];
    assert forall i :: 0 <= i < k ==> text[..k][i] == text[i] && text[i] != '\n';
    assert forall i :: 0 <= i < |line| ==> line[i] in line;
  }

  function Continue(v: Verdict, rest: string, section: bool): seq<Contact> {
    if v.Skip? then ParseIni(rest, v.section)
    else if v.Take? then [v.contact] + ParseIni(rest, section)
    else []
  }

  lemma ParseOneLine(line: string, rest: string, section: bool)
    requires '\n' !in line
    ensures ParseIni(line + "\n" + rest, section) == Continue(Judge(line, section), rest, section)
  {
    LineLengthIs(line, rest);
    var text := line + "\n" + rest;
    assert text[..|line|] == line && text[|line| + 1..] == rest;
  }

  lemma {:induction false} LinesFromFront(cs: seq<Contact>)
    requires cs != []
    ensures Lines(cs) == Line(cs[0]) + "\n" + Lines(cs[1..])
    decreases |cs|
  {
    hide Line;
    var front, last := cs[..|cs| - 1], cs[|cs| - 1];
    if front == [] {
      assert Lines(cs[1..]) == "";
    } else {
      LinesFromFront(front);
      assert cs[1..][..|cs| - 2] == front[1..];
      assert Lines(cs[1..]) == Lines(front[1..]) + (Line(last) + "\n");
    }
  }

  lemma {:induction false} LinesAreParsed(cs: seq<Contact>)
    ensures ParseIni(Lines(cs), true) == cs
    decreases |cs|
  {
    hide Line, ParseLine;
    if cs != [] {
      LinesFromFront(cs);
      LineIsPlain(cs[0]);
      LineIsParsed(cs[0]);
      ParseOneLine(Line(cs[0]), Lines(cs[1..]), true);
      assert Judge(Line(cs[0]), true) == Take(cs[0]);
      LinesAreParsed(cs[1..]);
    }
  }

  lemma HeaderLines(p: Pars)
    ensures '\n' !in LocalLine(p)
    ensures Judge(LOCAL, false) == Skip(false) && Judge(LocalLine(p), false) == Skip(false) && Judge(PEERS, false) == Skip(true)
  {
    var local := LocalLine(p);
    assert local[0] == '0' && PEERS[0] == '[' && PEERS[1] == 'o' && LOCAL[0] == '[' && LOCAL[1] == 'l';
    PlainConcat("0 0.0.0.0 ", Dec(p.udpPort));
    PlainConcat("0 0.0.0.0 " + Dec(p.udpPort), " ");
    PlainConcat("0 0.0.0.0 " + Dec(p.udpPort) + " ", Dec(p.tcpPort));
    PlainConcat("0 0.0.0.0 " + Dec(p.udpPort) + " " + Dec(p.tcpPort), " 0");
  }

  lemma HeaderIsSkipped(p: Pars, rest: string)
    ensures ParseIni(Header(p) + rest, false) == ParseIni(rest, true)
  {
    hide ParseLine, ParseIni, LocalLine;
    var local := LocalLine(p);
    HeaderLines(p);
    ParseOneLine(LOCAL, local + "\n" + (PEERS + "\n" + rest), false);
    ParseOneLine(local, PEERS + "\n" + rest, false);
    ParseOneLine(PEERS, rest, false);
    assert Header(p) + rest == LOCAL + "\n" + (local + "\n" + (PEERS + "\n" + rest));
  }

  /** The kadc.ini for a list of contacts. */
  function Ini(cs: seq<Contact>, p: Pars): string {
    (if |cs| == 0 then "" else Header(p)) + Lines(cs)
  }

  lemma IniIsParsed(cs: seq<Contact>, p: Pars)
    ensures ParseIni(Ini(cs, p), false) == cs
  {
    if cs != [] {
      HeaderIsSkipped(p, Lines(cs));
      LinesAreParsed(cs);
    }
  }

  /** For every list of contacts and all port settings: from the contact file to kadc.ini and back
      gives the same bytes, and both conversions report the length of the list. */
  method RoundTrip(cs: seq<Contact>, p: Pars) returns (ini: string, n1: nat, back: seq<byte>, n2: nat)
    requires |cs| <= INT_MAX
    ensures ini == Ini(cs, p)
    ensures back == ContactFile(cs) && n1 == |cs| && n2 == |cs|
  {
    FileIsRead(cs);
    ini, n1 := OvernetContactsToKadcIni(ContactFile(cs), p);
    IniIsParsed(cs, p);
    back, n2 := KadcIniToOvernetContacts(ini);
  }
}
