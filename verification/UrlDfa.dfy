/** The table-driven recogniser of URLs in chat text. */
module UrlDfa {

  const TOKEN_H := 0
  const TOKEN_T := 1
  const TOKEN_P := 2
  const TOKEN_COLON := 3
  const TOKEN_SLASH := 4
  const TOKEN_F := 5
  const TOKEN_W := 6
  const TOKEN_DOT := 7
  const TOKEN_TERM := 8
  const TOKEN_OTHER := 9
  const TOKEN_REMOVE_END := 10

  function Tokenize(c: char): (token: nat)
    ensures token <= TOKEN_REMOVE_END
    ensures token == TOKEN_TERM <==> Terminator(c)
    ensures token == TOKEN_REMOVE_END <==> c in ")({}[],;"
  {
    match c
    case 'h' => TOKEN_H
    case 't' => TOKEN_T
    case 'p' => TOKEN_P
    case ':' => TOKEN_COLON
    case '/' => TOKEN_SLASH
    case 'f' => TOKEN_F
    case 'w' => TOKEN_W
    case '.' => TOKEN_DOT
    case _ =>
      if Terminator(c) then TOKEN_TERM
      else if c in ")({}[],;" then TOKEN_REMOVE_END
      else TOKEN_OTHER
  }

  predicate Terminator(c: char) {
    c == ' ' || c == '\t' || c == '\n' || c == '\r' || c == '\0'
  }

  /** One row per state, one column per token; -1 is failure and row 10 is "anything goes". */
  const TABLE: seq<seq<int>> := [
    [ 1, -1, -1, -1, -1,  2,  7, -1, -1, -1, -1],
    [-1,  2, -1, -1, -1, -1, -1, -1, -1, -1, -1],
    [-1,  3, -1, -1, -1, -1, -1, -1, -1, -1, -1],
    [-1, -1,  4, -1, -1, -1, -1, -1, -1, -1, -1],
    [-1, -1, -1,  5, -1, -1, -1, -1, -1, -1, -1],
    [-1, -1, -1, -1,  6, -1, -1, -1, -1, -1, -1],
    [-1, -1, -1, -1, 10, -1, -1, -1, -1, -1, -1],
    [-1, -1, -1, -1, -1, -1,  8, -1, -1, -1, -1],
    [-1, -1, -1, -1, -1, -1,  9, -1, -1, -1, -1],
    [-1, -1, -1, -1, -1, -1, -1, 10, -1, -1, -1],
    [10, 10, 10, 10, 10, 10, 10, 10, 10, 10, 10]
  ]

  const ACCEPTING := 10

  /** One look-up in the table. */
  function Move(state: int, token: nat): (next: int)
    requires 0 <= state <= ACCEPTING && token <= TOKEN_REMOVE_END
    ensures -1 <= next <= ACCEPTING
  {
    TABLE[state][token]
  }

  /** What the table is for. */
  predicate HasScheme(word: string) {
    "http://" <= word || "ftp://" <= word || "www." <= word
  }

  lemma SchemeChars(w: string)
    ensures "http://" <= w <==> |w| >= 7 && w[0] == 'h' && w[1] == 't' && w[2] == 't' && w[3] == 'p' && w[4] == ':' && w[5] == '/' && w[6] == '/'
    ensures "ftp://" <= w <==> |w| >= 6 && w[0] == 'f' && w[1] == 't' && w[2] == 'p' && w[3] == ':' && w[4] == '/' && w[5] == '/'
    ensures "www." <= w <==> |w| >= 4 && w[0] == 'w' && w[1] == 'w' && w[2] == 'w' && w[3] == '.'
  {
    if "http://" <= w {
      assert w[..7] == "http://";
    }
    if "ftp://" <= w {
      assert w[..6] == "ftp://";
    }
    if "www." <= w {
      assert w[..4] == "www.";
    }
  }

  /** The words that lead from the start to a state that is not accepting yet. */
  predicate LeadsTo(word: string, state: int) {
    match state
    case 0 => word == ""
    case 1 => word == "h"
    case 2 => word == "ht" || word == "f"
    case 3 => word == "htt" || word == "ft"
    case 4 => word == "http" || word == "ftp"
    case 5 => word == "http:" || word == "ftp:"
    case 6 => word == "http:/" || word == "ftp:/"
    case 7 => word == "w"
    case 8 => word == "ww"
    case 9 => word == "www"
    case _ => false
  }

  /** After `word` the machine is in `state`. */
  predicate InState(word: string, state: int) {
    LeadsTo(word, state) || (state == ACCEPTING && HasScheme(word))
  }

  /** One step of the table agrees with reading one more character; a dead end means that no
      continuation has a scheme. */
  lemma StepAgrees(word: string, state: int, c: char)
    requires 0 <= state <= ACCEPTING && InState(word, state)
    ensures var next := Move(state, Tokenize(c));
            && -1 <= next <= ACCEPTING
            && (next != -1 ==> InState(word + [c], next))
            && (next == -1 ==> forall run :: word + [c] <= run ==> !HasScheme(run))
  {
    var next := Move(state, Tokenize(c));
    if state == ACCEPTING {
      assert word <= word + [c];
    } else if next == -1 {
      forall run | word + [c] <= run
        ensures !HasScheme(run)
      {
        DeadEnd(word, state, c, run);
      }
    }
  }

  lemma DeadEnd(word: string, state: int, c: char, run: string)
    requires 0 <= state < ACCEPTING && LeadsTo(word, state)
    requires Move(state, Tokenize(c)) == -1
    requires word + [c] <= run
    ensures !HasScheme(run)
  {
    SchemeChars(run);
    assert run[|word|] == c;
    assert run[..|word|] == word;
  }

  lemma NoSchemeYet(word: string, state: int)
    requires LeadsTo(word, state)
    ensures !HasScheme(word)
  {
    SchemeChars(word);
  }

  /** The end of the run of characters that starts at p. */
  function RunEnd(text: string, p: nat): (e: nat)
    requires p <= |text|
    ensures p <= e <= |text|
    ensures e < |text| ==> Terminator(text[e])
    ensures forall i :: p <= i < e ==> !Terminator(text[i])
    decreases |text| - p
  {
    if p == |text| || Terminator(text[p]) then p else RunEnd(text, p + 1)
  }

  lemma RunEndIs(text: string, p: nat, e: nat)
    requires p <= e <= |text|
    requires e < |text| ==> Terminator(text[e])
    requires forall i :: p <= i < e ==> !Terminator(text[i])
    ensures RunEnd(text, p) == e
  {
  }

  /** A URL starts at p. */
  predicate UrlAt(text: string, p: nat)
    requires p <= |text|
  {
    HasScheme(text[p..RunEnd(text, p)])
  }

  /** Dots, commas, semicolons and brackets belong to the sentence, not to the URL. */
  predicate Trimmed(c: char) {
    var token := Tokenize(c);
    token == TOKEN_REMOVE_END || token == TOKEN_TERM || token == TOKEN_DOT
  }

  /** e is just past the last character of the run at p that is not trimmed. */
  predicate UrlEnds(text: string, p: nat, e: nat)
    requires p <= |text|
  {
    && p < e <= RunEnd(text, p)
    && !Trimmed(text[e - 1])
    && forall i :: e <= i < RunEnd(text, p) ==> Trimmed(text[i])
  }

  /** The buffer is a C string: its guard position holds a NUL. */
  function At(text: string, i: nat): char {
    if i < |text| then text[i] else '\0'
  }

  datatype Status = Success | Failure

  class Dfa {
    var end: nat

    constructor ()
    {
      end := 0;
    }

    method PrepareEnd(text: string, begin: nat, stop: nat, s: Status) returns (status: Status)
      requires begin <= stop <= |text|
      modifies this
      ensures status == s
      ensures begin < end <= stop + 1
      ensures end - 1 == begin || !Trimmed(At(text, end - 1))
      ensures forall i :: end <= i <= stop ==> Trimmed(At(text, i))
    {
      end := stop;
      while end > begin && Trimmed(At(text, end))
        invariant begin <= end <= stop
        invariant forall i :: end < i <= stop ==> Trimmed(At(text, i))
      {
        end := end - 1;
      }
      end := end + 1;
      return s;
    }

    /** Succeeds exactly at a URL, and then end is just past it: at least three characters on, and
        within the text. */
    method Parse(text: string, buf: nat) returns (status: Status)
      requires buf <= |text|
      modifies this
      ensures status.Success? <==> UrlAt(text, buf)
      ensures status.Success? ==> UrlEnds(text, buf, end) && buf + 3 <= end <= |text|
    {
      hide UrlAt, UrlEnds, Trimmed, RunEnd, Move, InState, Tokenize;
      StartState();
      var p := buf;
      var state := 0;
      while p < |text|
        invariant buf <= p <= |text|
        invariant 0 <= state <= ACCEPTING && InState(text[buf..p], state)
        invariant forall i :: buf <= i < p ==> !Terminator(text[i])
      {
        var token := Tokenize(text[p]);
        if token == TOKEN_TERM {
          RunEndIs(text, buf, p);
          status := PrepareEnd(text, buf, p, if Move(state, token) == -1 then Failure else Success);
          AtRunEnd(text, buf, p, state, end);
          return;
        }
        ReadOne(text, buf, p, state);
        state := Move(state, token);
        if state == -1 {
          status := PrepareEnd(text, buf, p, Failure);
          return;
        }
        p := p + 1;
      }
      RunEndIs(text, buf, p);
      status := PrepareEnd(text, buf, p, if Move(state, TOKEN_TERM) == -1 then Failure else Success);
      AtRunEnd(text, buf, p, state, end);
    }
  }

  lemma StartState()
    ensures forall text: string, p: nat :: p <= |text| ==> InState(text[p..p], 0)
  {
  }

  /** Inside the run, one more character keeps the machine in step, or shows that no URL starts
      here. */
  lemma ReadOne(text: string, p: nat, i: nat, state: int)
    requires p <= i < |text| && 0 <= state <= ACCEPTING && InState(text[p..i], state)
    requires forall j :: p <= j <= i ==> !Terminator(text[j])
    ensures var next := Move(state, Tokenize(text[i]));
            -1 <= next <= ACCEPTING && (if next == -1 then !UrlAt(text, p) else InState(text[p..i + 1], next))
  {
    hide Move, Tokenize, InState, HasScheme;
    StepAgrees(text[p..i], state, text[i]);
    var word, run := text[p..i] + [text[i]], text[p..RunEnd(text, p)];
    assert word == text[p..i + 1];
    assert i < RunEnd(text, p);
    assert run[..i + 1 - p] == word;
    assert word <= run;
  }

  /** At the end of the run the state tells whether there was a scheme, and trimming backwards from
      there stops inside the URL. */
  lemma AtRunEnd(text: string, p: nat, stop: nat, state: int, end: nat)
    requires p <= stop <= |text| && stop == RunEnd(text, p)
    requires 0 <= state <= ACCEPTING && InState(text[p..stop], state)
    requires p < end <= stop + 1
    requires end - 1 == p || !Trimmed(At(text, end - 1))
    requires forall i :: end <= i <= stop ==> Trimmed(At(text, i))
    ensures Move(state, TOKEN_TERM) == -1 <==> !UrlAt(text, p)
    ensures UrlAt(text, p) ==> UrlEnds(text, p, end) && p + 3 <= end <= |text|
  {
    var run := text[p..stop];
    if state == ACCEPTING {
      SchemeChars(run);
      assert Trimmed(At(text, stop));
      assert run[0] == text[p] && run[1] == text[p + 1] && run[2] == text[p + 2];
      assert !Trimmed(At(text, p + 2));
      assert end <= stop;
      forall i | end <= i < stop
        ensures Trimmed(text[i])
      {
        assert Trimmed(At(text, i));
      }
    } else {
      NoSchemeYet(run, state);
    }
  }
}
