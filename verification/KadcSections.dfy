/** How a kadc.ini is read beyond what this program writes: comments, other sections, broken lines, files
    that end early. */
module KadcSections {
  import opened Wrappers
  import opened Numerals
  import opened KadcCodec
  import opened KadcRoundTrip

  /** Text that consists of whole lines. */
  predicate WholeLines(text: string) {
    text == "" || text[|text| - 1] == '\n'
  }

  /** Where reading stands behind some lines: the contacts taken so far, whether it is inside the peers
      section, and whether a broken line has ended it. */
  datatype Reading = Reading(contacts: seq<Contact>, section: bool, stopped: bool)

  function ReadLines(text: string, section: bool): Reading
    decreases |text|
  {
    var k := LineLength(text);
    if k == |text| then Reading([], section, false)
    else
      match Judge(text[..k], section)
      case Skip(section') => ReadLines(text[k + 1..], section')
      case Take(c) =>
        var r := ReadLines(text[k + 1..], section);
        r.(contacts := [c] + r.contacts)
      case Stop => Reading([], section, true)
  }

  lemma LineEnds(text: string)
    requires text != "" && WholeLines(text)
    ensures LineLength(text) < |text| && '\n' !in text[..LineLength(text)] && text[LineLength(text)] == '\n'
  {
    hide LineLength;
    assert text[|text| - 1] in text;
    assert text[..|text|] == text;
  }

  lemma SplitAt(text: string, k: nat)
    requires k < |text| && text[k] == '\n'
    ensures text == text[..k] + "\n" + text[k + 1..]
    ensures WholeLines(text) ==> WholeLines(text[k + 1..])
  {
  }

  lemma Regroup(line: string, rest: string, b: string)
    ensures (line + "\n" + rest) + b == line + "\n" + (rest + b)
  {
  }

  /** Reading goes through the text from front to back: what follows whole lines is read from where they
      leave off. */
  lemma {:induction false} ReadOn(a: string, b: string, section: bool)
    requires WholeLines(a)
    ensures var r := ReadLines(a, section);
            ParseIni(a + b, section) == r.contacts + if r.stopped then [] else ParseIni(b, r.section)
    decreases |a|
  {
    hide Judge, LineLength, ParseIni, ReadLines;
    if a == "" {
      NothingRead(section);
      assert a + b == b;
    } else {
      LineEnds(a);
      var k := LineLength(a);
      SplitAt(a, k);
      var line, rest := a[..k], a[k + 1..];
      Regroup(line, rest, b);
      ReadFirst(a, section);
      ParseOneLine(line, rest + b, section);
      var v := Judge(line, section);
      if v.Skip? {
        ReadOn(rest, b, v.section);
      } else if v.Take? {
        ReadOn(rest, b, section);
        var r := ReadLines(rest, section);
        var more := if r.stopped then [] else ParseIni(b, r.section);
        assert [v.contact] + (r.contacts + more) == ([v.contact] + r.contacts) + more;
      }
    }
  }

  lemma ReadFirst(text: string, section: bool)
    requires LineLength(text) < |text|
    ensures var k := LineLength(text);
            var v := Judge(text[..k], section);
            && (v.Skip? ==> ReadLines(text, section) == ReadLines(text[k + 1..], v.section))
            && (v.Take? ==>
                  ReadLines(text, section) == ReadLines(text[k + 1..], section).(contacts := [v.contact] + ReadLines(text[k + 1..], section).contacts))
            && (v.Stop? ==> ReadLines(text, section) == Reading([], section, true))
  {
    hide Judge, LineLength;
  }

  lemma NothingRead(section: bool)
    ensures ReadLines("", section) == Reading([], section, false)
  {
  }

  /** A comment can stand between any two lines, inside the section and outside, and makes no
      difference. */
  lemma CommentsDoNotCount(a: string, comment: string, b: string, section: bool)
    requires WholeLines(a) && comment != "" && comment[0] == '#' && '\n' !in comment
    ensures ParseIni(a + (comment + "\n" + b), section) == ParseIni(a + b, section)
  {
    hide ParseIni, ReadLines;
    ReadOn(a, comment + "\n" + b, section);
    ReadOn(a, b, section);
    ParseOneLine(comment, b, ReadLines(a, section).section);
  }

  /** A line outside the section that is not its head gives nothing. */
  lemma OutsideIsSkipped(line: string, rest: string)
    requires '\n' !in line && line != PEERS
    ensures ParseIni(line + "\n" + rest, false) == ParseIni(rest, false)
  {
    hide ParseIni, ParseLine;
    ParseOneLine(line, rest, false);
  }

  lemma HeadOpens(rest: string)
    ensures ParseIni(PEERS + "\n" + rest, false) == ParseIni(rest, true)
  {
    hide ParseIni, ParseLine;
    assert PEERS[0] == '[' && PEERS[1] == 'o';
    ParseOneLine(PEERS, rest, false);
  }

  /** Any head, the peers head included, ends the section. */
  lemma HeadCloses(head: string, rest: string)
    requires head != "" && head[0] == '[' && '\n' !in head
    ensures ParseIni(head + "\n" + rest, true) == ParseIni(rest, false)
  {
    hide ParseIni, ParseLine;
    ParseOneLine(head, rest, true);
  }

  /** Inside the section a line is a contact, or it ends the reading. */
  lemma InsideIsTaken(line: string, rest: string)
    requires '\n' !in line && (line != "" ==> line[0] != '#' && line[0] != '[')
    ensures ParseIni(line + "\n" + rest, true)
         == if ParseLine(line).Some? then [ParseLine(line).value] + ParseIni(rest, true) else []
  {
    hide ParseIni, ParseLine;
    ParseOneLine(line, rest, true);
  }

  /** A last line without newline is not looked at. */
  lemma UnfinishedLine(line: string, section: bool)
    requires '\n' !in line
    ensures ParseIni(line, section) == []
  {
    assert LineLength(line) == |line|;
  }

  lemma {:induction false} PeersAreRead(cs: seq<Contact>, rest: string)
    ensures ParseIni(Lines(cs) + rest, true) == cs + ParseIni(rest, true)
    decreases |cs|
  {
    hide Line, ParseLine, ParseIni, Lines;
    if cs == [] {
      NoPeers();
      assert Lines(cs) + rest == rest;
    } else {
      LinesFromFront(cs);
      LineIsPlain(cs[0]);
      LineIsParsed(cs[0]);
      Regroup(Line(cs[0]), Lines(cs[1..]), rest);
      InsideIsTaken(Line(cs[0]), Lines(cs[1..]) + rest);
      PeersAreRead(cs[1..], rest);
      assert [cs[0]] + (cs[1..] + ParseIni(rest, true)) == cs + ParseIni(rest, true);
    }
  }

  lemma NoPeers()
    ensures Lines([]) == ""
  {
  }

  /** The peers section of a written file ends at the next head, whatever is under it. */
  lemma SectionEnds(cs: seq<Contact>, p: Pars, head: string, rest: string)
    requires cs != [] && head != "" && head[0] == '[' && '\n' !in head
    ensures ParseIni(Ini(cs, p) + (head + "\n" + rest), false) == cs + ParseIni(rest, false)
  {
    hide ParseIni, Lines, Header;
    var tail := head + "\n" + rest;
    assert Ini(cs, p) + tail == Header(p) + (Lines(cs) + tail);
    HeaderIsSkipped(p, Lines(cs) + tail);
    PeersAreRead(cs, tail);
    HeadCloses(head, rest);
  }

  /** Two peers sections with another section in between are both read, and what is in between is not. */
  lemma TwoSections(a: seq<Contact>, other: string, line: string, b: seq<Contact>)
    requires other != "" && other[0] == '[' && '\n' !in other && '\n' !in line && line != PEERS
    ensures ParseIni(Lines(a) + (other + "\n" + (line + "\n" + (PEERS + "\n" + Lines(b)))), true) == a + b
  {
    hide ParseIni, Lines;
    PeersAreRead(a, other + "\n" + (line + "\n" + (PEERS + "\n" + Lines(b))));
    HeadCloses(other, line + "\n" + (PEERS + "\n" + Lines(b)));
    OutsideIsSkipped(line, PEERS + "\n" + Lines(b));
    HeadOpens(Lines(b));
    LinesAreParsed(b);
  }

  /** A contact file that ends early gives the contacts that are completely there. */
  lemma TruncatedFile(cs: seq<Contact>, n: nat)
    requires |cs| <= INT_MAX && COUNT_SIZE <= n <= |ContactFile(cs)|
    ensures var b := ContactFile(cs)[..n];
            var whole := (n - COUNT_SIZE) / RECORD_SIZE;
            whole <= |cs| && Complete(b) == whole && ContactsIn(b, whole) == cs[..whole]
  {
    hide Record, ContactAt;
    FileIsRead(cs);
    var full := ContactFile(cs);
    var b, whole := full[..n], (n - COUNT_SIZE) / RECORD_SIZE;
    assert WordAt(b, 0) == WordAt(full, 0);
    assert |full| == COUNT_SIZE + RECORD_SIZE * |cs|;
    forall k | 0 <= k < whole
      ensures ContactAt(b, COUNT_SIZE + k * RECORD_SIZE) == cs[k]
    {
      SameContact(full, n, COUNT_SIZE + k * RECORD_SIZE);
      assert ContactsIn(full, |cs|)[k] == cs[k];
    }
  }

  lemma SameContact(full: seq<byte>, n: nat, i: nat)
    requires i + RECORD_SIZE <= n <= |full|
    ensures ContactAt(full[..n], i) == ContactAt(full, i)
  {
  }

  /** The address is printed in the order of its bytes in the file, the first octet first. */
  lemma AddressInFileOrder(w: word)
    ensures var b := Bytes(w);
            DottedQuad(ChangeLongEndianity(w)) == Dec(b[0]) + ("." + (Dec(b[1]) + ("." + (Dec(b[2]) + ("." + Dec(b[3]))))))
  {
    var b := Bytes(w);
    BytesJoin(b[3], b[2], b[1], b[0]);
  }

  /** An address is taken exactly if dots stand between its parts and each part fits a word; of each part
      the low byte counts. */
  lemma QuadIsChecked(a: seq<nat>, x: char, y: char, z: char, rest: string)
    requires |a| == 4 && !IsDigit(x) && !IsDigit(y) && !IsDigit(z) && (rest != "" ==> !IsDigit(rest[0]))
    ensures TakeQuad(Dec(a[0]) + ([x] + (Dec(a[1]) + ([y] + (Dec(a[2]) + ([z] + (Dec(a[3]) + rest))))))) ==
            if x == y == z == '.' && forall i :: 0 <= i < 4 ==> a[i] < 0x1_0000_0000
            then Some((Join(a[3] % 0x100, a[2] % 0x100, a[1] % 0x100, a[0] % 0x100), rest)) else None
  {
    hide Dec, TakeDec, Expect, Join;
    var s6 := Dec(a[3]) + rest;
    var s4 := Dec(a[2]) + ([z] + s6);
    var s2 := Dec(a[1]) + ([y] + s4);
    TakeDecDec(a[0], [x] + s2, 0x1_0000_0000);
    ExpectTakes('.', x, s2);
    TakeDecDec(a[1], [y] + s4, 0x1_0000_0000);
    ExpectTakes('.', y, s4);
    TakeDecDec(a[2], [z] + s6, 0x1_0000_0000);
    ExpectTakes('.', z, s6);
    TakeDecDec(a[3], rest, 0x1_0000_0000);
  }

  /** A line is taken exactly if single blanks stand between its fields and the port fits sixteen bits. */
  lemma LineIsChecked(id: string, x: char, w: word, y: char, port: nat, z: char, rest: string)
    requires |id| == 32 && !IsDigit(y) && !IsDigit(z)
    ensures var line := id + ([x] + (DottedQuad(w) + ([y] + (Dec(port) + ([z] + rest)))));
            ParseLine(line) ==
            if x == y == z == ' ' && port < 0x1_0000 then Some(Contact(IdOf(line), ChangeLongEndianity(w), port, TakeKind(rest))) else None
  {
    hide Dec, DottedQuad, TakeDec, TakeQuad, TakeKind, Expect, IdOf, ChangeLongEndianity;
    var s4 := Dec(port) + ([z] + rest);
    var s2 := DottedQuad(w) + ([y] + s4);
    var line := id + ([x] + s2);
    assert line[32..] == [x] + s2;
    ExpectTakes(' ', x, s2);
    QuadTaken(w, [y] + s4);
    ExpectTakes(' ', y, s4);
    TakeDecDec(port, [z] + rest, 0x1_0000);
    ExpectTakes(' ', z, rest);
  }

  /** The local line: an id and an address of zero, the two ports, a zero. */
  function ReadLocal(line: string): Option<Pars> {
    var (_, s1) :- TakeDec(line, 0x1_0000_0000);
    var s2 :- Expect(s1, ' ');
    var (_, s3) :- TakeQuad(s2);
    var s4 :- Expect(s3, ' ');
    var (udp, s5) :- TakeDec(s4, 0x1_0000);
    var s6 :- Expect(s5, ' ');
    var (tcp, s7) :- TakeDec(s6, 0x1_0000);
    Some(Pars(udp, tcp))
  }

  /** Read that way, the local line of a written file gives the ports that it was written with, UDP
      first. */
  lemma LocalIsRead(p: Pars)
    ensures ReadLocal(LocalLine(p)) == Some(p)
  {
    hide TakeDec, TakeQuad, Dec, DottedQuad;
    var s6 := Dec(p.tcpPort) + " 0";
    var s4 := Dec(p.udpPort) + (" " + s6);
    ZeroAddress();
    assert LocalLine(p) == "0" + (" " + (DottedQuad(0) + (" " + s4)));
    ZeroPrinted();
    TakeDecDec(0, " " + (DottedQuad(0) + (" " + s4)), 0x1_0000_0000);
    ExpectTakes(' ', ' ', DottedQuad(0) + (" " + s4));
    QuadTaken(0, " " + s4);
    ExpectTakes(' ', ' ', s4);
    TakeDecDec(p.udpPort, " " + s6, 0x1_0000);
    ExpectTakes(' ', ' ', s6);
    TakeDecDec(p.tcpPort, " 0", 0x1_0000);
  }

  lemma ZeroPrinted()
    ensures Dec(0) == "0"
  {
  }

  lemma ZeroAddress()
    ensures DottedQuad(0) == "0.0.0.0"
  {
    ZeroPrinted();
    assert Bytes(0) == [0, 0, 0, 0];
  }
}
