/**
 * `tokenize_command` of include/clangd.h: split a command string on single
 * spaces, then drop the empty pieces that runs of spaces leave behind.
 */
module Tokenizer {

  /** The pieces of `s` between single spaces (`views::split(' ')`), empty pieces included. */
  function Split(s: string): (pieces: seq<string>)
    ensures |pieces| >= 1
  {
    if |s| == 0 then [""]
    else
      var rest := Split(s[1..]);
      if s[0] == ' ' then [""] + rest
      else [[s[0]] + rest[0]] + rest[1..]
  }

  /** The non-empty pieces, in order (`views::filter(!rng.empty())`). */
  function NonEmpty(pieces: seq<string>): seq<string> {
    if |pieces| == 0 then []
    else if |pieces[0]| == 0 then NonEmpty(pieces[1..])
    else [pieces[0]] + NonEmpty(pieces[1..])
  }

  /** `tokenize_command`: the non-empty space-separated pieces of `cmd`. */
  function Tokenize(cmd: string): seq<string> {
    NonEmpty(Split(cmd))
  }

  /** The pieces joined with one space between neighbours. */
  function JoinSpaced(pieces: seq<string>): string {
    if |pieces| == 0 then ""
    else if |pieces| == 1 then pieces[0]
    else pieces[0] + " " + JoinSpaced(pieces[1..])
  }

  /** The pieces glued together with nothing between them. */
  function Concat(pieces: seq<string>): string {
    if |pieces| == 0 then "" else pieces[0] + Concat(pieces[1..])
  }

  /** The characters of `s` other than spaces, in order. */
  function Unspaced(s: string): string {
    if |s| == 0 then ""
    else if s[0] == ' ' then Unspaced(s[1..])
    else [s[0]] + Unspaced(s[1..])
  }

  /** A well-formed token: non-empty and free of spaces. */
  predicate IsToken(t: string) {
    |t| > 0 && ' ' !in t
  }

  /** Splitting loses nothing: joining the pieces with spaces gives back `s`. */
  lemma {:induction false} SplitJoin(s: string)
    ensures JoinSpaced(Split(s)) == s
  {
    if |s| > 0 {
      var rest := Split(s[1..]);
      SplitJoin(s[1..]);
      if s[0] == ' ' {
        assert Split(s) == [""] + rest;
        assert JoinSpaced([""] + rest) == "" + " " + JoinSpaced(rest);
        assert s == [s[0]] + s[1..];
      } else {
        JoinSpacedHead(s[0], rest);
        assert s == [s[0]] + s[1..];
      }
    }
  }

  /** Prepending a character to the first piece prepends it to the joined string. */
  lemma {:induction false} JoinSpacedHead(c: char, pieces: seq<string>)
    requires |pieces| >= 1
    ensures JoinSpaced([[c] + pieces[0]] + pieces[1..]) == [c] + JoinSpaced(pieces)
  {
    var p := [[c] + pieces[0]] + pieces[1..];
    if |pieces| > 1 {
      assert p[1..] == pieces[1..];
      var tail := JoinSpaced(pieces[1..]);
      assert JoinSpaced(p) == ([c] + pieces[0]) + " " + tail;
      assert JoinSpaced(pieces) == pieces[0] + " " + tail;
      assert ([c] + pieces[0]) + " " + tail == [c] + (pieces[0] + " " + tail);
    }
  }

  /** No piece contains a space. */
  lemma {:induction false} SplitPiecesSpaceFree(s: string)
    ensures forall p :: p in Split(s) ==> ' ' !in p
  {
    if |s| > 0 {
      SplitPiecesSpaceFree(s[1..]);
      var rest := Split(s[1..]);
      if s[0] != ' ' {
        assert forall p :: p in rest[1..] ==> p in rest;
        assert ' ' !in [s[0]] + rest[0] by {
          assert rest[0] in rest;
        }
      }
    }
  }

  /** The pieces glued together are the characters of `s` that are not spaces. */
  lemma {:induction false} SplitConcat(s: string)
    ensures Concat(Split(s)) == Unspaced(s)
  {
    if |s| > 0 {
      SplitConcat(s[1..]);
      var rest := Split(s[1..]);
      if s[0] == ' ' {
        assert Concat([""] + rest) == "" + Concat(rest);
      } else {
        var p := [[s[0]] + rest[0]] + rest[1..];
        assert p[1..] == rest[1..];
        assert Concat(rest) == rest[0] + Concat(rest[1..]);
        assert Concat(p) == [s[0]] + rest[0] + Concat(rest[1..]);
      }
    }
  }

  /** Dropping empty pieces changes nothing once the pieces are glued together. */
  lemma {:induction false} NonEmptyConcat(pieces: seq<string>)
    ensures Concat(NonEmpty(pieces)) == Concat(pieces)
  {
    if |pieces| > 0 {
      NonEmptyConcat(pieces[1..]);
      if |pieces[0]| > 0 {
        var ne := [pieces[0]] + NonEmpty(pieces[1..]);
        assert ne[1..] == NonEmpty(pieces[1..]);
      }
    }
  }

  /** The kept pieces are the non-empty elements of the input. */
  lemma {:induction false} NonEmptyElements(pieces: seq<string>)
    ensures forall t :: t in NonEmpty(pieces) <==> t in pieces && |t| > 0
  {
    if |pieces| > 0 {
      NonEmptyElements(pieces[1..]);
      assert forall t :: t in pieces <==> t == pieces[0] || t in pieces[1..];
    }
  }

  /**
   * The filter works piece by piece: it keeps each non-empty piece, in order
   * and as often as it occurs, and drops each empty one.
   */
  lemma {:induction false} NonEmptyAppend(p: seq<string>, q: seq<string>)
    ensures NonEmpty(p + q) == NonEmpty(p) + NonEmpty(q)
    ensures |p| == 1 ==> NonEmpty(p) == if |p[0]| > 0 then p else []
  {
    if |p| > 0 {
      assert (p + q)[0] == p[0];
      assert (p + q)[1..] == p[1..] + q;
      NonEmptyAppend(p[1..], q);
      if |p[0]| > 0 {
        assert NonEmpty(p + q) == [p[0]] + (NonEmpty(p[1..]) + NonEmpty(q));
        assert NonEmpty(p) == [p[0]] + NonEmpty(p[1..]);
      }
    } else {
      assert p + q == q;
    }
  }

  /** A space splits the string: the pieces of the two sides, one after the other. */
  lemma {:induction false} SplitAtSpace(a: string, b: string)
    ensures Split(a + " " + b) == Split(a) + Split(b)
  {
    if |a| == 0 {
      assert a + " " + b == [' '] + b;
      assert (a + " " + b)[1..] == b;
    } else {
      assert (a + " " + b)[0] == a[0];
      assert (a + " " + b)[1..] == a[1..] + " " + b;
      SplitAtSpace(a[1..], b);
    }
  }

  /**
   * Tokenizing around a space tokenizes each side. With an empty side this
   * covers leading and trailing spaces, and applied repeatedly it covers runs
   * of spaces: none of them yields a token.
   */
  lemma TokenizeAtSpace(a: string, b: string)
    ensures Tokenize(a + " " + b) == Tokenize(a) + Tokenize(b)
  {
    SplitAtSpace(a, b);
    NonEmptyAppend(Split(a), Split(b));
  }

  /** A non-empty, space-free string is a single token. */
  lemma TokenizeWord(w: string)
    requires IsToken(w)
    ensures Tokenize(w) == [w]
  {
    SplitSpaceFree(w);
    NonEmptyAppend([w], []);
  }

  /** A run of `n` spaces. */
  function Spaces(n: nat): (r: string)
    ensures |r| == n && forall i :: 0 <= i < n ==> r[i] == ' '
  {
    if n == 0 then "" else " " + Spaces(n - 1)
  }

  /**
   * A run of one or more spaces separates the tokens on its two sides and
   * yields none of its own, also at the start or the end of the command.
   */
  lemma {:induction false} TokenizeSpaceRun(a: string, n: nat, b: string)
    requires n >= 1
    ensures Tokenize(a + Spaces(n) + b) == Tokenize(a) + Tokenize(b)
    ensures Tokenize(Spaces(n) + b) == Tokenize(b)
    ensures Tokenize(a + Spaces(n)) == Tokenize(a)
    decreases n
  {
    assert Tokenize("") == [];
    if n == 1 {
      assert Spaces(1) == " ";
      TokenizeAtSpace(a, b);
      TokenizeAtSpace("", b);
      assert "" + " " + b == Spaces(n) + b;
      TokenizeAtSpace(a, "");
      assert a + " " + "" == a + Spaces(n);
    } else {
      TokenizeSpaceRun(a, n - 1, b);
      TokenizeSpaceRun("", n - 1, b);
      assert a + Spaces(n) + b == a + " " + (Spaces(n - 1) + b);
      TokenizeAtSpace(a, Spaces(n - 1) + b);
      assert Spaces(n) + b == "" + " " + (Spaces(n - 1) + b);
      TokenizeAtSpace("", Spaces(n - 1) + b);
      TokenizeSpaceRun(a, n - 1, "");
      assert a + Spaces(n) == a + " " + Spaces(n - 1);
      TokenizeAtSpace(a, Spaces(n - 1));
      assert Spaces(n - 1) == "" + Spaces(n - 1) + "";
      TokenizeSpaceRun("", n - 1, "");
    }
  }

  /** Three words separated by runs of spaces are exactly three tokens. */
  lemma SpacedWords(w1: string, gap1: nat, w2: string, gap2: nat, w3: string)
    requires IsToken(w1) && IsToken(w2) && IsToken(w3)
    requires gap1 >= 1 && gap2 >= 1
    ensures Tokenize(w1 + Spaces(gap1) + (w2 + Spaces(gap2) + w3)) == [w1, w2, w3]
  {
    TokenizeWord(w1);
    TokenizeWord(w2);
    TokenizeWord(w3);
    TokenizeSpaceRun(w2, gap2, w3);
    TokenizeSpaceRun(w1, gap1, w2 + Spaces(gap2) + w3);
  }

  /**
   * Runs of spaces around the command yield no tokens: with `SpacedWords`,
   * this is the shape of `"gcc   -I/path    -DDEBUG"` and of
   * `"  g++ -c file.cpp  "`.
   */
  lemma PaddedCommand(lead: nat, body: string, trail: nat)
    ensures Tokenize(Spaces(lead) + body + Spaces(trail)) == Tokenize(body)
  {
    var trailed := body + Spaces(trail);
    if trail > 0 {
      TokenizeSpaceRun(body, trail, "");
    } else {
      assert trailed == body;
    }
    assert Spaces(lead) + body + Spaces(trail) == Spaces(lead) + trailed;
    if lead > 0 {
      TokenizeSpaceRun("", lead, trailed);
    } else {
      assert Spaces(lead) + trailed == trailed;
    }
  }

  /** Every token is non-empty and has no space in it. */
  lemma TokensWellFormed(cmd: string)
    ensures forall t :: t in Tokenize(cmd) ==> IsToken(t)
  {
    SplitPiecesSpaceFree(cmd);
    NonEmptyElements(Split(cmd));
  }

  /** The tokens, glued together in order, are exactly the non-space characters of `cmd`. */
  lemma TokenizeKeepsOrder(cmd: string)
    ensures Concat(Tokenize(cmd)) == Unspaced(cmd)
  {
    NonEmptyConcat(Split(cmd));
    SplitConcat(cmd);
  }

  /** Glued non-empty pieces are empty only when there are no pieces. */
  lemma {:induction false} ConcatOfTokensEmpty(pieces: seq<string>)
    requires forall t :: t in pieces ==> |t| > 0
    ensures Concat(pieces) == "" <==> pieces == []
  {
    if |pieces| > 0 {
      assert pieces[0] in pieces;
      assert |Concat(pieces)| >= |pieces[0]|;
    }
  }

  /** A string has no non-space characters exactly when it is all spaces. */
  lemma {:induction false} UnspacedEmpty(s: string)
    ensures Unspaced(s) == "" <==> forall i :: 0 <= i < |s| ==> s[i] == ' '
  {
    if |s| > 0 {
      UnspacedEmpty(s[1..]);
      assert forall i :: 1 <= i < |s| ==> s[i] == s[1..][i - 1];
    }
  }

  /** `cmd` yields no token exactly when it is empty or made only of spaces. */
  lemma TokenizeEmpty(cmd: string)
    ensures Tokenize(cmd) == [] <==> forall i :: 0 <= i < |cmd| ==> cmd[i] == ' '
  {
    TokensWellFormed(cmd);
    ConcatOfTokensEmpty(Tokenize(cmd));
    TokenizeKeepsOrder(cmd);
    UnspacedEmpty(cmd);
  }

  /** A space-free piece in front of a space is split off as the first piece. */
  lemma {:induction false} SplitAfterPiece(a: string, rest: string)
    requires ' ' !in a
    ensures Split(a + " " + rest) == [a] + Split(rest)
  {
    if |a| == 0 {
      assert a + " " + rest == [' '] + rest;
      assert (a + " " + rest)[1..] == rest;
    } else {
      assert (a + " " + rest)[1..] == a[1..] + " " + rest;
      SplitAfterPiece(a[1..], rest);
      assert [a[0]] + a[1..] == a;
    }
  }

  /** A space-free string is one piece. */
  lemma {:induction false} SplitSpaceFree(a: string)
    requires ' ' !in a
    ensures Split(a) == [a]
  {
    if |a| > 0 {
      SplitSpaceFree(a[1..]);
      assert [a[0]] + a[1..] == a;
    }
  }

  /** Splitting undoes joining with spaces when no piece holds a space. */
  lemma {:induction false} JoinSplit(pieces: seq<string>)
    requires |pieces| >= 1
    requires forall p :: p in pieces ==> ' ' !in p
    ensures Split(JoinSpaced(pieces)) == pieces
  {
    assert pieces[0] in pieces;
    if |pieces| == 1 {
      SplitSpaceFree(pieces[0]);
    } else {
      JoinSplit(pieces[1..]);
      SplitAfterPiece(pieces[0], JoinSpaced(pieces[1..]));
    }
  }

  /** Non-empty pieces survive the filter unchanged. */
  lemma {:induction false} NonEmptyKeepsTokens(pieces: seq<string>)
    requires forall p :: p in pieces ==> |p| > 0
    ensures NonEmpty(pieces) == pieces
  {
    if |pieces| > 0 {
      assert pieces[0] in pieces;
      NonEmptyKeepsTokens(pieces[1..]);
    }
  }

  /** Tokenizing the single-space join of well-formed tokens gives back those tokens. */
  lemma TokenizeJoin(tokens: seq<string>)
    requires forall t :: t in tokens ==> IsToken(t)
    ensures Tokenize(JoinSpaced(tokens)) == tokens
  {
    if |tokens| > 0 {
      JoinSplit(tokens);
      NonEmptyKeepsTokens(tokens);
    }
  }
}
