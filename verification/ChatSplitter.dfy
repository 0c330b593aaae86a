/** How a chat message is cut into plain text and URLs for display. */
module ChatSplitter {
  import opened UrlDfa

  predicate IsWordSeparator(c: char) {
    c in "\0 \t\n\r)({}[].,:;"
  }

  datatype Piece = Text(shown: string) | Url(shown: string)

  /** The text is handed on as a C string: it ends at the first NUL. */
  function CString(s: string): string {
    if s == "" || s[0] == '\0' then "" else [s[0]] + CString(s[1..])
  }

  lemma {:induction false} CStringWhole(s: string)
    ensures CString(s) == s <==> '\0' !in s
    ensures |CString(s)| <= |s|
    ensures |CString(s)| == |s| ==> CString(s) == s
  {
    if s != "" && s[0] != '\0' {
      CStringWhole(s[1..]);
      assert s == [s[0]] + s[1..];
    }
  }

  function Concat(pieces: seq<Piece>): string
    decreases |pieces|
  {
    if pieces == [] then "" else Concat(pieces[..|pieces| - 1]) + pieces[|pieces| - 1].shown
  }

  /** A position at which a word can start. */
  predicate WordStart(msg: string, i: nat)
    requires i <= |msg|
  {
    i == 0 || IsWordSeparator(msg[i - 1])
  }

  /** What it means that `piece` shows msg[a..b]: it is not empty and lies in the message; a URL
      starts at the start of a word, ends where the recogniser says and is shown in full; a text
      contains no position at which a word starts with a URL. */
  ghost predicate Shows(msg: string, a: nat, b: nat, piece: Piece) {
    && a < b <= |msg|
    && piece.shown == CString(msg[a..b])
    && match piece
       case Url(_) => WordStart(msg, a) && UrlAt(msg, a) && UrlEnds(msg, a, b)
       case Text(_) => forall i :: a <= i < b && WordStart(msg, i) ==> !UrlAt(msg, i)
  }

  /** The pieces cover msg[..end] from left to right, cut at `cuts`. */
  ghost predicate Covers(msg: string, end: nat, cuts: seq<nat>, pieces: seq<Piece>) {
    && |cuts| == |pieces| + 1 && cuts[0] == 0 && cuts[|pieces|] == end
    && forall i :: 0 <= i < |pieces| ==> Shows(msg, cuts[i], cuts[i + 1], pieces[i])
  }

  lemma CoversSnoc(msg: string, a: nat, b: nat, cuts: seq<nat>, pieces: seq<Piece>, p: Piece)
    requires Covers(msg, a, cuts, pieces) && Shows(msg, a, b, p)
    ensures Covers(msg, b, cuts + [b], pieces + [p])
  {
    var more, cuts' := pieces + [p], cuts + [b];
    forall i | 0 <= i < |more|
      ensures Shows(msg, cuts'[i], cuts'[i + 1], more[i])
    {
      assert cuts'[i] == cuts[i];
      if i < |pieces| {
        assert cuts'[i + 1] == cuts[i + 1] && more[i] == pieces[i];
      }
    }
  }

  /** A URL needs a letter to start with. */
  lemma SeparatorIsNoUrl(msg: string, i: nat)
    requires i < |msg| && IsWordSeparator(msg[i])
    ensures !UrlAt(msg, i)
  {
    SchemeChars(msg[i..RunEnd(msg, i)]);
  }

  /** What is left of a word that is not a URL: separators, then the word itself. */
  lemma PlainText(msg: string, base: nat, p0: nat, p: nat)
    requires base <= p0 <= p <= |msg| && base < p
    requires forall i :: base <= i < p0 ==> IsWordSeparator(msg[i])
    requires forall i :: p0 <= i < p ==> !IsWordSeparator(msg[i])
    requires !UrlAt(msg, p0)
    ensures Shows(msg, base, p, Text(CString(msg[base..p])))
  {
    forall i | base <= i < p && WordStart(msg, i)
      ensures !UrlAt(msg, i)
    {
      if i < p0 {
        SeparatorIsNoUrl(msg, i);
      } else if i > p0 {
        assert false;
      }
    }
  }

  /** Trimmed characters and terminators are separators, so a URL is followed by one. */
  lemma UrlStopsAtSeparator(msg: string, p: nat, e: nat)
    requires p <= |msg| && UrlEnds(msg, p, e) && e < |msg|
    ensures IsWordSeparator(msg[e])
  {
    if e < RunEnd(msg, p) {
      assert Trimmed(msg[e]);
    }
  }

  method StyledContent(msg: string) returns (pieces: seq<Piece>, ghost cuts: seq<nat>)
    ensures Covers(msg, |msg|, cuts, pieces)
    ensures Concat(pieces) == msg <==> '\0' !in msg
    ensures '\0' !in msg ==> forall i :: 0 <= i < |pieces| ==> pieces[i].shown != ""
  {
    hide Shows, Covers, CString, Concat, UrlAt, UrlEnds;
    var parser := new Dfa();
    var base := 0;
    var p := 0;
    pieces, cuts := [], [0];
    CoversNothing(msg);
    while p < |msg|
      invariant base == p <= |msg|
      invariant Covers(msg, base, cuts, pieces)
      invariant WordStart(msg, p) || p == |msg| || IsWordSeparator(msg[p])
      decreases |msg| - p
    {
      while p < |msg| && IsWordSeparator(msg[p])
        invariant base <= p <= |msg|
        invariant forall i :: base <= i < p ==> IsWordSeparator(msg[i])
      {
        p := p + 1;
      }
      ghost var p0 := p;
      var status := parser.Parse(msg, p);
      if status == Success {
        if base != p {
          var nonUrl := Text(CString(msg[base..p]));
          SeparatorsAreText(msg, base, p);
          CoversSnoc(msg, base, p, cuts, pieces, nonUrl);
          pieces, cuts := pieces + [nonUrl], cuts + [p];
        }
        base := p;
        p := parser.end;
        var url := Url(CString(msg[base..p]));
        UrlPiece(msg, base, p);
        CoversSnoc(msg, base, p, cuts, pieces, url);
        pieces, cuts := pieces + [url], cuts + [p];
        if p < |msg| {
          UrlStopsAtSeparator(msg, base, p);
        }
        base := p;
      } else {
        while p < |msg| && !IsWordSeparator(msg[p])
          invariant p0 <= p <= |msg|
          invariant forall i :: p0 <= i < p ==> !IsWordSeparator(msg[i])
        {
          p := p + 1;
        }
        var nonUrl := Text(CString(msg[base..p]));
        PlainText(msg, base, p0, p);
        CoversSnoc(msg, base, p, cuts, pieces, nonUrl);
        pieces, cuts := pieces + [nonUrl], cuts + [p];
        base := p;
      }
    }
    Conservation(msg, |msg|, cuts, pieces);
    assert msg[..|msg|] == msg;
    if '\0' !in msg {
      NoneEmpty(msg, cuts, pieces);
    }
  }

  lemma CoversNothing(msg: string)
    ensures Covers(msg, 0, [0], [])
  {
  }

  lemma UrlPiece(msg: string, a: nat, b: nat)
    requires a < b <= |msg| && WordStart(msg, a) && UrlAt(msg, a) && UrlEnds(msg, a, b)
    ensures Shows(msg, a, b, Url(CString(msg[a..b])))
  {
  }

  lemma NoneEmpty(msg: string, cuts: seq<nat>, pieces: seq<Piece>)
    requires '\0' !in msg && Covers(msg, |msg|, cuts, pieces)
    ensures forall i :: 0 <= i < |pieces| ==> pieces[i].shown != ""
  {
    forall i | 0 <= i < |pieces|
      ensures pieces[i].shown != ""
    {
      assert Shows(msg, cuts[i], cuts[i + 1], pieces[i]);
      CStringWhole(msg[cuts[i]..cuts[i + 1]]);
    }
  }

  lemma SeparatorsAreText(msg: string, a: nat, b: nat)
    requires a < b <= |msg| && forall i :: a <= i < b ==> IsWordSeparator(msg[i])
    ensures Shows(msg, a, b, Text(CString(msg[a..b])))
  {
    forall i | a <= i < b
      ensures !UrlAt(msg, i)
    {
      SeparatorIsNoUrl(msg, i);
    }
  }

  lemma OnePieceMore(msg: string, a: nat, end: nat, front: string, shown: string)
    requires a <= end <= |msg| && |front| <= a && |shown| <= end - a
    requires (front == msg[..a] <==> '\0' !in msg[..a]) && (|front| == a ==> front == msg[..a])
    requires (shown == msg[a..end] <==> '\0' !in msg[a..end]) && (|shown| == end - a ==> shown == msg[a..end])
    ensures front + shown == msg[..end] <==> '\0' !in msg[..end]
    ensures |front + shown| == end ==> front + shown == msg[..end]
  {
    assert msg[..end] == msg[..a] + msg[a..end];
    if front + shown == msg[..end] {
      assert |front| == a;
      assert shown == (front + shown)[a..];
    }
  }

  /** Nothing is lost, repeated or reordered, unless a NUL cuts a piece short. */
  lemma {:induction false} Conservation(msg: string, end: nat, cuts: seq<nat>, pieces: seq<Piece>)
    requires end <= |msg| && Covers(msg, end, cuts, pieces)
    ensures Concat(pieces) == msg[..end] <==> '\0' !in msg[..end]
    ensures |Concat(pieces)| <= end
    ensures |Concat(pieces)| == end ==> Concat(pieces) == msg[..end]
    decreases |pieces|
  {
    if pieces != [] {
      var n := |pieces| - 1;
      var front, p, a := pieces[..n], pieces[n], cuts[n];
      assert Shows(msg, a, end, p);
      forall i | 0 <= i < n
        ensures Shows(msg, cuts[..n + 1][i], cuts[..n + 1][i + 1], front[i])
      {
        assert Shows(msg, cuts[i], cuts[i + 1], pieces[i]);
      }
      Conservation(msg, a, cuts[..n + 1], front);
      CStringWhole(msg[a..end]);
      OnePieceMore(msg, a, end, Concat(front), p.shown);
    }
  }

  /** Every position lies in a piece. */
  lemma {:induction false} PieceAt(msg: string, end: nat, cuts: seq<nat>, pieces: seq<Piece>, i: nat) returns (n: nat)
    requires Covers(msg, end, cuts, pieces) && i < end
    ensures n < |pieces| && cuts[n] <= i < cuts[n + 1]
    decreases |pieces|
  {
    n := |pieces| - 1;
    if i < cuts[n] {
      forall j | 0 <= j < n
        ensures Shows(msg, cuts[..n + 1][j], cuts[..n + 1][j + 1], pieces[..n][j])
      {
        assert Shows(msg, cuts[j], cuts[j + 1], pieces[j]);
      }
      n := PieceAt(msg, cuts[n], cuts[..n + 1], pieces[..n], i);
    }
  }

  /** No URL is missed: where a word starts with one, a URL piece begins, or the position lies within the
      URL before it. */
  lemma NoUrlIsMissed(msg: string, cuts: seq<nat>, pieces: seq<Piece>, i: nat) returns (n: nat)
    requires Covers(msg, |msg|, cuts, pieces) && i < |msg| && WordStart(msg, i) && UrlAt(msg, i)
    ensures n < |pieces| && cuts[n] <= i < cuts[n + 1] && pieces[n].Url?
    ensures UrlEnds(msg, cuts[n], cuts[n + 1])
  {
    n := PieceAt(msg, |msg|, cuts, pieces, i);
    assert Shows(msg, cuts[n], cuts[n + 1], pieces[n]);
  }
}
