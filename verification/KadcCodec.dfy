/** Overnet contacts as binary records and as the peers section of a kadc.ini. */
module KadcCodec {
  import opened Wrappers
  import opened Numerals

  type ContactId = id: seq<word> | |id| == 4 witness [0, 0, 0, 0]

  /** `ip` is the word as it stands in the file, first octet lowest. */
  datatype Contact = Contact(id: ContactId, ip: word, port: half, kind: byte)

  const COUNT_SIZE := 4
  const RECORD_SIZE := 23
  const INT_MAX := 0x7FFF_FFFF

  function Record(c: Contact): (r: seq<byte>)
    ensures |r| == RECORD_SIZE
  {
    Bytes(c.id[0]) + Bytes(c.id[1]) + Bytes(c.id[2]) + Bytes(c.id[3]) + Bytes(c.ip) + HalfBytes(c.port) + [c.kind]
  }

  function Records(cs: seq<Contact>): (r: seq<byte>)
    ensures |r| == RECORD_SIZE * |cs|
    decreases |cs|
  {
    if cs == [] then [] else Records(cs[..|cs| - 1]) + Record(cs[|cs| - 1])
  }

  lemma RecordsSnoc(before: seq<byte>, cs: seq<Contact>, c: Contact)
    ensures before + Records(cs + [c]) == (before + Records(cs)) + Record(c)
  {
    assert (cs + [c])[..|cs|] == cs;
  }

  function Narrow(n: nat): word {
    n % 0x1_0000_0000
  }

  /** The contact file: the number of contacts, then the records. */
  function ContactFile(cs: seq<Contact>): seq<byte> {
    Bytes(Narrow(|cs|)) + Records(cs)
  }

  function WordAt(b: seq<byte>, i: nat): word
    requires i + 4 <= |b|
  {
    Join(b[i], b[i + 1], b[i + 2], b[i + 3])
  }

  function HalfAt(b: seq<byte>, i: nat): half
    requires i + 2 <= |b|
  {
    var low: int := b[i];
    var high: int := b[i + 1];
    low + 0x100 * high
  }

  function ContactAt(b: seq<byte>, i: nat): Contact
    requires i + RECORD_SIZE <= |b|
  {
    Contact(
      [WordAt(b, i), WordAt(b, i + 4), WordAt(b, i + 8), WordAt(b, i + 12)],
      WordAt(b, i + 16), HalfAt(b, i + 20), b[i + 22])
  }

  /** A number of contacts is a signed int. */
  function Signed(w: word): int {
    if w <= INT_MAX then w else w - 0x1_0000_0000
  }

  function ChangeLongEndianity(w: word): word {
    var b := Bytes(w);
    Join(b[3], b[2], b[1], b[0])
  }

  function DottedQuad(w: word): string {
    var b := Bytes(w);
    Dec(b[3]) + ("." + (Dec(b[2]) + ("." + (Dec(b[1]) + ("." + Dec(b[0]))))))
  }

  function HexId(id: ContactId): (s: string)
    ensures |s| == 32
  {
    Hex(id[0], 8) + Hex(id[1], 8) + Hex(id[2], 8) + Hex(id[3], 8)
  }

  /** One line of the peers section. */
  function Line(c: Contact): string {
    HexId(c.id) + (" " + (DottedQuad(ChangeLongEndianity(c.ip)) + (" " + (Dec(c.port) + (" " + Dec(c.kind))))))
  }

  function Lines(cs: seq<Contact>): string
    decreases |cs|
  {
    if cs == [] then "" else Lines(cs[..|cs| - 1]) + (Line(cs[|cs| - 1]) + "\n")
  }

  datatype Pars = Pars(udpPort: half, tcpPort: half)

  const LOCAL := "[local]"
  const PEERS := "[overnet_peers]"

  function LocalLine(p: Pars): string {
    "0 0.0.0.0 " + Dec(p.udpPort) + " " + Dec(p.tcpPort) + " 0"
  }

  function Header(p: Pars): string {
    LOCAL + "\n" + LocalLine(p) + "\n" + PEERS + "\n"
  }

  /** The contacts that are completely there. */
  function Complete(b: seq<byte>): nat
    requires COUNT_SIZE <= |b|
  {
    var num := Signed(WordAt(b, 0));
    var there := (|b| - COUNT_SIZE) / RECORD_SIZE;
    if num <= 0 then 0 else if num <= there then num else there
  }

  function ContactsIn(b: seq<byte>, n: nat): seq<Contact>
    requires COUNT_SIZE + n * RECORD_SIZE <= |b|
  {
    seq(n, k requires 0 <= k < n => ContactAt(b, COUNT_SIZE + k * RECORD_SIZE))
  }

  lemma LinesSnoc(cs: seq<Contact>)
    requires cs != []
    ensures Lines(cs) == Lines(cs[..|cs| - 1]) + (Line(cs[|cs| - 1]) + "\n")
  {
    hide Line;
  }

  lemma NextLine(b: seq<byte>, i: nat)
    requires COUNT_SIZE + (i + 1) * RECORD_SIZE <= |b|
    ensures Lines(ContactsIn(b, i + 1)) == Lines(ContactsIn(b, i)) + (Line(ContactAt(b, COUNT_SIZE + i * RECORD_SIZE)) + "\n")
  {
    hide ContactAt, Line;
    var more := ContactsIn(b, i + 1);
    assert |more| == i + 1 && more[i] == ContactAt(b, COUNT_SIZE + i * RECORD_SIZE);
    assert more[..i] == ContactsIn(b, i);
    LinesSnoc(more);
  }

  lemma NoLines(b: seq<byte>)
    requires COUNT_SIZE <= |b|
    ensures Lines(ContactsIn(b, 0)) == ""
  {
  }

  lemma AllComplete(b: seq<byte>, i: nat)
    requires COUNT_SIZE + i * RECORD_SIZE <= |b|
    requires var num := Signed(WordAt(b, 0));
             (if num <= 0 then i == 0 else i <= num) && (i < num ==> COUNT_SIZE + (i + 1) * RECORD_SIZE > |b|)
    ensures i == Complete(b)
  {
  }

  /** Reading past the end raises an exception, which ends the conversion; the contact being read is
      not written. */
  method OvernetContactsToKadcIni(inp: seq<byte>, p: Pars) returns (out: string, i: nat)
    ensures |inp| < COUNT_SIZE ==> out == "" && i == 0
    ensures COUNT_SIZE <= |inp| ==>
              && i == Complete(inp)
              && out == (if Signed(WordAt(inp, 0)) == 0 then "" else Header(p)) + Lines(ContactsIn(inp, i))
  {
    hide Line, Lines, Header, ContactAt, ContactsIn, Complete, WordAt;
    out, i := "", 0;
    if |inp| < COUNT_SIZE {
      return;
    }
    var num := Signed(WordAt(inp, 0));
    var pos := COUNT_SIZE;
    if num != 0 {
      out := Header(p);
    }
    ghost var head := out;
    NoLines(inp);
    while i < num && pos + RECORD_SIZE <= |inp|
      invariant pos == COUNT_SIZE + i * RECORD_SIZE <= |inp|
      invariant num <= 0 ==> i == 0
      invariant num > 0 ==> i <= num
      invariant out == head + Lines(ContactsIn(inp, i))
    {
      var c := ContactAt(inp, pos);
      NextLine(inp, i);
      out := out + (Line(c) + "\n");
      pos := pos + RECORD_SIZE;
      i := i + 1;
    }
    AllComplete(inp, i);
  }

  function Expect(s: string, c: char): Option<string> {
    if s != "" && s[0] == c then Some(s[1..]) else None
  }

  function HexChunk(line: string, j: nat): word
    requires 8 * j + 8 <= |line|
  {
    HexWord(line[8 * j..8 * j + 8])
  }

  function IdOf(line: string): ContactId
    requires 32 <= |line|
  {
    [HexChunk(line, 0), HexChunk(line, 1), HexChunk(line, 2), HexChunk(line, 3)]
  }

  /** The last number of a line: nothing checks whether its extraction failed. */
  function TakeKind(s: string): byte {
    var (negative, t) := TakeSign(SkipBlanks(s));
    var v := DecValue(t[..DigitRun(t)]);
    (if negative then -(if v > INT_MAX then INT_MAX + 1 else v) else if v > INT_MAX then INT_MAX else v) % 0x100
  }

  /** A dotted quad: each part keeps its low byte. */
  function TakeQuad(s: string): Option<(word, string)> {
    var (a0, s1) :- TakeDec(s, 0x1_0000_0000);
    var s2 :- Expect(s1, '.');
    var (a1, s3) :- TakeDec(s2, 0x1_0000_0000);
    var s4 :- Expect(s3, '.');
    var (a2, s5) :- TakeDec(s4, 0x1_0000_0000);
    var s6 :- Expect(s5, '.');
    var (a3, s7) :- TakeDec(s6, 0x1_0000_0000);
    Some((Join(a3 % 0x100, a2 % 0x100, a1 % 0x100, a0 % 0x100), s7))
  }

  /** A line of the peers section. None stands for the exception that ends the conversion. */
  function ParseLine(line: string): Option<Contact> {
    if |line| < 32 then None
    else
      var s1 :- Expect(line[32..], ' ');
      var (ip, s2) :- TakeQuad(s1);
      var s3 :- Expect(s2, ' ');
      var (port, s4) :- TakeDec(s3, 0x1_0000);
      var s5 :- Expect(s4, ' ');
      Some(Contact(IdOf(line), ChangeLongEndianity(ip), port, TakeKind(s5)))
  }

  /** The length of the first line, or of everything if no line is terminated. */
  function LineLength(text: string): (k: nat)
    ensures k <= |text|
    ensures '\n' !in text[..k]
    ensures k < |text| ==> text[k] == '\n'
  {
    if text == "" || text[0] == '\n' then 0 else 1 + LineLength(text[1..])
  }

  datatype Verdict = Skip(section: bool) | Take(contact: Contact) | Stop

  function Judge(line: string, section: bool): Verdict {
    if line != "" && line[0] == '#' then Skip(section)
    else if !section && line == PEERS then Skip(true)
    else if section && line != "" && line[0] == '[' then Skip(false)
    else if section then
      match ParseLine(line)
      case None => Stop
      case Some(c) => Take(c)
    else Skip(false)
  }

  /** The contacts of the peers section. A last line without newline raises the end-of-file
      exception before it is looked at. */
  function ParseIni(text: string, section: bool): seq<Contact>
    decreases |text|
  {
    var k := LineLength(text);
    if k == |text| then []
    else
      match Judge(text[..k], section)
      case Skip(section') => ParseIni(text[k + 1..], section')
      case Take(c) => [c] + ParseIni(text[k + 1..], section)
      case Stop => []
  }

  method KadcIniToOvernetContacts(inp: string) returns (out: seq<byte>, i: nat)
    ensures i == |ParseIni(inp, false)|
    ensures out == ContactFile(ParseIni(inp, false))
  {
    hide ParseLine, ParseIni, Record, Records, Bytes, LineLength;
    i := 0;
    out := Bytes(0);
    var section := false;
    var rest := inp;
    ghost var read: seq<Contact> := [];
    var failed := false;
    NoRecords(out);
    while !failed && LineLength(rest) < |rest|
      invariant i == |read|
      invariant out == Bytes(0) + Records(read)
      invariant ParseIni(inp, false) == read + (if failed then [] else ParseIni(rest, section))
      decreases |rest|, !failed
    {
      var k := LineLength(rest);
      var line := rest[..k];
      ghost var verdict := Judge(line, section);
      OneLine(inp, read, rest, section);
      rest := rest[k + 1..];
      if line != "" && line[0] == '#' {
        assert verdict == Skip(section);
      } else if !section && line == PEERS {
        section := true;
        assert verdict == Skip(section);
      } else if section && line != "" && line[0] == '[' {
        section := false;
        assert verdict == Skip(section);
      } else if section {
        match ParseLine(line)
        case None =>
          failed := true;
        case Some(c) =>
          RecordsSnoc(Bytes(0), read, c);
          out := out + Record(c);
          i := i + 1;
          read := read + [c];
      } else {
        assert verdict == Skip(section);
      }
    }
    if !failed {
      NoLine(rest, section);
    }
    assert ParseIni(inp, false) == read;
    assert out[COUNT_SIZE..] == Records(read);
    out := Bytes(Narrow(i)) + out[COUNT_SIZE..];
  }

  lemma NoRecords(b: seq<byte>)
    ensures b == b + Records([])
  {
  }

  lemma NoLine(text: string, section: bool)
    requires LineLength(text) == |text|
    ensures ParseIni(text, section) == []
  {
  }

  /** What one turn of the loop leaves to be read. */
  lemma OneLine(inp: string, read: seq<Contact>, rest: string, section: bool)
    requires LineLength(rest) < |rest|
    requires ParseIni(inp, false) == read + ParseIni(rest, section)
    ensures var k := LineLength(rest);
            var v := Judge(rest[..k], section);
            && (v.Skip? ==> ParseIni(inp, false) == read + ParseIni(rest[k + 1..], v.section))
            && (v.Take? ==> ParseIni(inp, false) == (read + [v.contact]) + ParseIni(rest[k + 1..], section))
            && (v.Stop? ==> ParseIni(inp, false) == read)
  {
    hide Judge, LineLength, ParseIni;
    var k := LineLength(rest);
    var v := Judge(rest[..k], section);
    ParseFirst(rest, section);
    if v.Take? {
      assert read + ([v.contact] + ParseIni(rest[k + 1..], section)) == (read + [v.contact]) + ParseIni(rest[k + 1..], section);
    } else if v.Stop? {
      assert read + [] == read;
    }
  }

  /** Parsing looks at the first line and goes on behind it. */
  lemma ParseFirst(rest: string, section: bool)
    requires LineLength(rest) < |rest|
    ensures var k := LineLength(rest);
            var v := Judge(rest[..k], section);
            && (v.Skip? ==> ParseIni(rest, section) == ParseIni(rest[k + 1..], v.section))
            && (v.Take? ==> ParseIni(rest, section) == [v.contact] + ParseIni(rest[k + 1..], section))
            && (v.Stop? ==> ParseIni(rest, section) == [])
  {
    hide Judge, LineLength;
  }
}
