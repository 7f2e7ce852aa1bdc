/**
 * Whitespace normalisation before chunking: `" ".join(text.split())`.
 * The collapsed text is well spaced (no edge whitespace, only plain single
 * spaces between words) and carries exactly the words of the input; it is
 * the only well-spaced text with those words.
 */
module Normalize {
  import opened PyText

  /** `" ".join(text.split())`: well spaced, with exactly the words of `text`. */
  function Collapse(text: string): (collapsed: string)
    ensures WellSpaced(collapsed)
    ensures Split(collapsed) == Split(text)
  {
    JoinWellSpaced(Split(text));
    SplitJoin(Split(text));
    JoinSpace(Split(text))
  }

  /** No whitespace at either end, no whitespace other than ' ', and never two spaces in a row. */
  predicate WellSpaced(t: string)
  {
    && (t != [] ==> !IsSpace(t[0]) && !IsSpace(t[|t| - 1]))
    && (forall i :: 0 <= i < |t| && IsSpace(t[i]) ==> t[i] == ' ')
    && (forall i :: 0 <= i < |t| - 1 ==> !(t[i] == ' ' && t[i + 1] == ' '))
  }

  predicate AllWords(ws: seq<string>)
  {
    forall k :: 0 <= k < |ws| ==> IsWord(ws[k])
  }

  /** A word followed by whitespace (or nothing) is what `WordLength` measures. */
  lemma {:induction false} WordLengthOf(w: string, rest: string)
    requires forall i :: 0 <= i < |w| ==> !IsSpace(w[i])
    requires rest == [] || IsSpace(rest[0])
    ensures WordLength(w + rest) == |w|
  {
    if w == [] {
      assert w + rest == rest;
    } else {
      assert (w + rest)[1..] == w[1..] + rest;
      WordLengthOf(w[1..], rest);
    }
  }

  /** Splitting a single word gives that word back. */
  lemma SplitWord(w: string)
    requires IsWord(w)
    ensures Split(w) == [w]
  {
    WordLengthOf(w, []);
    assert w + [] == w;
    assert w[|w|..] == [];
  }

  /** Leading whitespace is skipped by `split()`. */
  lemma SplitSpaceFirst(c: char, s: string)
    requires IsSpace(c)
    ensures Split([c] + s) == Split(s)
  {
    assert ([c] + s)[1..] == s;
  }

  /** `split()` undoes `" ".join` on a list of words. */
  lemma {:induction false} SplitJoin(ws: seq<string>)
    requires AllWords(ws)
    ensures Split(JoinSpace(ws)) == ws
  {
    if ws == [] {
    } else if |ws| == 1 {
      SplitWord(ws[0]);
    } else {
      var w, r := ws[0], JoinSpace(ws[1..]);
      var j := w + " " + r;
      assert j == w + ([' '] + r);
      WordLengthOf(w, [' '] + r);
      assert j[..|w|] == w;
      assert j[|w|..] == [' '] + r;
      SplitSpaceFirst(' ', r);
      SplitJoin(ws[1..]);
      assert ws == [w] + ws[1..];
    }
  }

  /** `" ".join` of words is well spaced, and non-empty when there is a word. */
  lemma {:induction false} JoinWellSpaced(ws: seq<string>)
    requires AllWords(ws)
    ensures WellSpaced(JoinSpace(ws))
    ensures ws != [] ==> ws[0] <= JoinSpace(ws) && JoinSpace(ws)[0] == ws[0][0]
  {
    if |ws| >= 2 {
      var w, r := ws[0], JoinSpace(ws[1..]);
      JoinWellSpaced(ws[1..]);
      var j := w + " " + r;
      assert j == JoinSpace(ws);
      assert |j| == |w| + 1 + |r|;
      forall i | 0 <= i < |j| && IsSpace(j[i])
        ensures j[i] == ' '
      {
        if i > |w| { assert j[i] == r[i - |w| - 1]; }
      }
      forall i | 0 <= i < |j| - 1
        ensures !(j[i] == ' ' && j[i + 1] == ' ')
      {
        if i > |w| {
          assert j[i] == r[i - |w| - 1] && j[i + 1] == r[i - |w|];
        } else if i == |w| {
          assert j[i + 1] == r[0];
        } else if i == |w| - 1 {
          assert j[i] == w[i];
        }
      }
      assert j[|j| - 1] == r[|r| - 1];
    }
  }

  /** Split never yields the empty list when some character is not whitespace. */
  lemma SplitNonEmpty(s: string)
    requires s != [] && !IsSpace(s[0])
    ensures Split(s) != []
  {
  }

  /** What follows a space of a well-spaced text is well spaced and starts a word. */
  lemma WellSpacedAfterSpace(t: string, n: nat)
    requires WellSpaced(t) && n < |t| && IsSpace(t[n])
    ensures t[n] == ' '
    ensures n + 1 < |t| && !IsSpace(t[n + 1])
    ensures WellSpaced(t[n + 1..])
  {
    var u := t[n + 1..];
    forall i | 0 <= i < |u| - 1
      ensures !(u[i] == ' ' && u[i + 1] == ' ')
    {
      assert u[i] == t[n + 1 + i] && u[i + 1] == t[n + 2 + i];
    }
  }

  /** `split()` takes the leading word, then carries on after the whitespace that ends it. */
  lemma SplitFirstWord(t: string, n: nat)
    requires t != [] && !IsSpace(t[0])
    requires n == WordLength(t) && n < |t|
    ensures Split(t) == [t[..n]] + Split(t[n + 1..])
  {
    assert t[n..] == [t[n]] + t[n + 1..];
    SplitSpaceFirst(t[n], t[n + 1..]);
  }

  /** Rejoining a text cut at a space at `n`, once its tail rejoins to itself. */
  lemma JoinAtSpace(t: string, n: nat, ws: seq<string>)
    requires n < |t| && t[n] == ' '
    requires ws != [] && JoinSpace(ws) == t[n + 1..]
    ensures JoinSpace([t[..n]] + ws) == t
  {
    assert ([t[..n]] + ws)[1..] == ws;
    assert t == t[..n] + " " + t[n + 1..];
  }

  /** A well-spaced text is rebuilt by joining its own words. */
  lemma {:induction false} JoinSplitWellSpaced(t: string)
    requires WellSpaced(t)
    ensures JoinSpace(Split(t)) == t
    decreases |t|
  {
    if t != [] {
      var n := WordLength(t);
      if n == |t| {
        SplitWord(t);
      } else {
        WellSpacedAfterSpace(t, n);
        var u := t[n + 1..];
        SplitFirstWord(t, n);
        JoinSplitWellSpaced(u);
        SplitNonEmpty(u);
        JoinAtSpace(t, n, Split(u));
      }
    }
  }

  /** `s.split(sep)` when `s` starts with a piece free of `sep`. */
  lemma {:induction false} SplitOnPrefix(w: string, s: string, sep: char)
    requires sep !in w
    ensures SplitOn(w + s, sep) == [w + SplitOn(s, sep)[0]] + SplitOn(s, sep)[1..]
  {
    if w != [] {
      var parts := SplitOn(s, sep);
      assert (w + s)[1..] == w[1..] + s;
      assert (w + s)[0] == w[0] != sep;
      SplitOnPrefix(w[1..], s, sep);
      var rest := SplitOn(w[1..] + s, sep);
      assert rest[0] == w[1..] + parts[0] && rest[1..] == parts[1..];
      assert [w[0]] + rest[0] == w + parts[0];
    } else {
      assert w + s == s;
      var parts := SplitOn(s, sep);
      assert w + parts[0] == parts[0];
      assert parts == [parts[0]] + parts[1..];
    }
  }

  /** `" ".join(ws).split(" ")` gives `ws` back for a non-empty list of words. */
  lemma {:induction false} SplitOnJoin(ws: seq<string>)
    requires ws != [] && AllWords(ws)
    ensures SplitOn(JoinSpace(ws), ' ') == ws
  {
    var w := ws[0];
    assert ' ' !in w;
    if |ws| == 1 {
      SplitOnPrefix(w, [], ' ');
      assert w + [] == w;
    } else {
      var r := JoinSpace(ws[1..]);
      assert JoinSpace(ws) == w + ([' '] + r);
      SplitOnPrefix(w, [' '] + r, ' ');
      assert ([' '] + r)[1..] == r;
      assert SplitOn([' '] + r, ' ') == [[]] + SplitOn(r, ' ');
      assert w + [] == w;
      SplitOnJoin(ws[1..]);
      assert ws == [w] + ws[1..];
    }
  }

  /** Splitting the collapsed text on single spaces gives the words of `text.split()`;
      with no words at all the collapsed text is empty. */
  lemma CollapseSplitOnSpace(text: string)
    ensures Split(text) != [] ==> SplitOn(Collapse(text), ' ') == Split(text)
    ensures Split(text) == [] <==> Collapse(text) == []
  {
    if Split(text) != [] {
      SplitOnJoin(Split(text));
      JoinWellSpaced(Split(text));
    }
  }

  /** The collapsed text is the only well-spaced text with the words of the input. */
  lemma CollapseUnique(text: string, t: string)
    requires WellSpaced(t) && Split(t) == Split(text)
    ensures t == Collapse(text)
  {
    JoinSplitWellSpaced(t);
  }

  /** Collapsing twice is collapsing once. */
  lemma CollapseIdempotent(text: string)
    ensures Collapse(Collapse(text)) == Collapse(text)
  {
  }
}
