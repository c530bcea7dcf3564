/** The two tokenisers the pass applies to a translated record: Python's
    `str.split()` (runs of whitespace) and `str.split("|")`. */
module Tokens {

  /** The characters Python's `str.isspace` accepts, on which `str.split()`
      with no argument breaks a string. */
  predicate IsSpace(c: char)
  {
    ('\t' <= c <= '\r') || ('\U{1C}' <= c <= '\U{1F}') || c == ' '
    || c == '\U{85}' || c == '\U{A0}' || c == '\U{1680}'
    || ('\U{2000}' <= c <= '\U{200A}') || c == '\U{2028}' || c == '\U{2029}'
    || c == '\U{202F}' || c == '\U{205F}' || c == '\U{3000}'
  }

  predicate NoSpace(w: string)
  {
    forall k :: 0 <= k < |w| ==> !IsSpace(w[k])
  }

  predicate AllSpace(s: string)
  {
    forall k :: 0 <= k < |s| ==> IsSpace(s[k])
  }

  /** The end of the run of non-whitespace characters that starts at `i`. */
  function WordEnd(s: string, i: nat): (j: nat)
    requires i <= |s|
    ensures i <= j <= |s|
    ensures forall k :: i <= k < j ==> !IsSpace(s[k])
    ensures j < |s| ==> IsSpace(s[j])
    decreases |s| - i
  {
    if i == |s| || IsSpace(s[i]) then i else WordEnd(s, i + 1)
  }

  /** The tokens `ws` laid out with the whitespace runs `gaps` before, between
      and after them. */
  function Interleave(gaps: seq<string>, ws: seq<string>): string
    requires |gaps| == |ws| + 1
    decreases |ws|
  {
    if ws == [] then gaps[0] else gaps[0] + ws[0] + Interleave(gaps[1..], ws[1..])
  }

  /** One whitespace run around each token, and a non-empty one between two
      consecutive tokens. */
  predicate Separates(gaps: seq<string>, ws: seq<string>)
  {
    |gaps| == |ws| + 1
    && (forall i :: 0 <= i < |gaps| ==> AllSpace(gaps[i]))
    && (forall i :: 0 < i < |ws| ==> gaps[i] != [])
  }

  /** `s` is the tokens `ws`, in order, separated and surrounded by whitespace. */
  ghost predicate Spaced(s: string, ws: seq<string>)
  {
    exists gaps :: Separates(gaps, ws) && Interleave(gaps, ws) == s
  }

  /** `s.split()`: the maximal runs of non-whitespace characters, in order.
      Together with `WordsOfSpaced` this determines the result: the tokens
      are exactly the words that whitespace separates in `s`. */
  function Words(s: string): (ws: seq<string>)
    ensures forall w :: w in ws ==> w != [] && NoSpace(w)
    ensures Spaced(s, ws)
    ensures |ws| <= |s|
    decreases |s|
  {
    if s == [] then
      assert Separates([[]], []) && Interleave([[]], []) == s;
      []
    else if IsSpace(s[0]) then
      SpacedAfterSpace(s[0], s[1..], Words(s[1..]));
      assert [s[0]] + s[1..] == s;
      Words(s[1..])
    else
      var j := WordEnd(s, 0);
      SpacedAfterWord(s[..j], s[j..], Words(s[j..]));
      assert s[..j] + s[j..] == s;
      [s[..j]] + Words(s[j..])
  }

  /** A leading whitespace character widens the first run. */
  lemma SpacedAfterSpace(c: char, t: string, ws: seq<string>)
    requires IsSpace(c) && Spaced(t, ws)
    ensures Spaced([c] + t, ws)
  {
    var gaps :| Separates(gaps, ws) && Interleave(gaps, ws) == t;
    var gaps' := [[c] + gaps[0]] + gaps[1..];
    assert gaps'[1..] == gaps[1..];
    assert Separates(gaps', ws);
    assert Interleave(gaps', ws) == [c] + t;
  }

  /** A word followed by whitespace or by nothing becomes the first token. */
  lemma SpacedAfterWord(w: string, t: string, ws: seq<string>)
    requires w != [] && NoSpace(w) && (t == [] || IsSpace(t[0]))
    requires Spaced(t, ws) && forall v :: v in ws ==> v != [] && NoSpace(v)
    ensures Spaced(w + t, [w] + ws)
  {
    var gaps :| Separates(gaps, ws) && Interleave(gaps, ws) == t;
    if ws != [] {
      // The first token is non-empty and starts with a non-whitespace
      // character, while `t` starts with whitespace: a run precedes it.
      assert ws[0] in ws;
      assert t == gaps[0] + ws[0] + Interleave(gaps[1..], ws[1..]);
    }
    var gaps' := [[]] + gaps;
    var ws' := [w] + ws;
    assert gaps'[1..] == gaps && ws'[1..] == ws;
    assert Separates(gaps', ws');
    assert Interleave(gaps', ws') == w + t;
  }

  /** The converse of `Words`' contract: whitespace-separated words are split
      into exactly those words, whatever whitespace surrounds them. */
  lemma {:induction false} WordsOfSpaced(gaps: seq<string>, ws: seq<string>)
    requires Separates(gaps, ws) && forall w :: w in ws ==> w != [] && NoSpace(w)
    ensures Words(Interleave(gaps, ws)) == ws
    decreases |ws|
  {
    if ws == [] {
      WordsOfBlank(gaps[0]);
    } else {
      var rest := Interleave(gaps[1..], ws[1..]);
      assert Separates(gaps[1..], ws[1..]) by {
        forall i | 0 < i < |ws[1..]| ensures gaps[1..][i] != [] {
          assert gaps[1..][i] == gaps[i + 1];
        }
      }
      forall w | w in ws[1..] ensures w != [] && NoSpace(w) {
        assert w in ws;
      }
      WordsOfSpaced(gaps[1..], ws[1..]);
      assert ws[0] in ws;
      if ws[1..] == [] {
        assert rest == gaps[1];
      } else {
        assert rest == gaps[1] + ws[1..][0] + Interleave(gaps[2..], ws[2..]);
        assert gaps[1] != [] && rest[0] == gaps[1][0];
      }
      WordsAfterBlank(gaps[0], ws[0] + rest);
      assert Interleave(gaps, ws) == gaps[0] + (ws[0] + rest);
      WordsOfWordThen(ws[0], rest);
      assert ws == [ws[0]] + ws[1..];
    }
  }

  /** A blank line (such as the empty string `readline` returns at the end
      of a file) has no tokens. */
  lemma {:induction false} WordsOfBlank(s: string)
    requires AllSpace(s)
    ensures Words(s) == []
    decreases |s|
  {
    if s != [] {
      WordsOfBlank(s[1..]);
    }
  }

  /** Leading whitespace does not change the tokens. */
  lemma {:induction false} WordsAfterBlank(g: string, t: string)
    requires AllSpace(g)
    ensures Words(g + t) == Words(t)
    decreases |g|
  {
    if g == [] {
      assert g + t == t;
    } else {
      assert (g + t)[1..] == g[1..] + t;
      WordsAfterBlank(g[1..], t);
    }
  }

  /** A word followed by whitespace, or by nothing, is split off as the
      first token. */
  lemma WordsOfWordThen(w: string, t: string)
    requires w != [] && NoSpace(w) && (t == [] || IsSpace(t[0]))
    ensures Words(w + t) == [w] + Words(t)
  {
    var s := w + t;
    WordEndOfWord(s, w, 0);
    assert s[..|w|] == w;
    assert s[|w|..] == t;
  }

  /** A word followed by a whitespace character is split off as the first
      token. */
  lemma WordsOfWordThenSpace(w: string, c: char, rest: string)
    requires w != [] && NoSpace(w) && IsSpace(c)
    ensures Words(w + [c] + rest) == [w] + Words([c] + rest)
  {
    var s := w + [c] + rest;
    WordEndOfWord(s, w, 0);
    assert s[..|w|] == w;
    assert s[|w|..] == [c] + rest;
  }

  lemma {:induction false} WordEndOfWord(s: string, w: string, i: nat)
    requires w <= s && i <= |w| && NoSpace(w) && (|w| == |s| || IsSpace(s[|w|]))
    ensures WordEnd(s, i) == |w|
    decreases |w| - i
  {
    if i < |w| {
      assert s[i] == w[i];
      WordEndOfWord(s, w, i + 1);
    }
  }

  /** A translated record `<read id><whitespace><rank path><line end>` is
      split into exactly the read identifier and the rank path. */
  lemma WordsOfRecord(id: string, tab: char, path: string, eol: char)
    requires id != [] && NoSpace(id) && path != [] && NoSpace(path)
    requires IsSpace(tab) && IsSpace(eol)
    ensures Words(id + [tab] + path + [eol]) == [id, path]
  {
    var tail := path + [eol];
    assert id + [tab] + path + [eol] == id + [tab] + tail;
    WordsOfWordThenSpace(id, tab, tail);
    assert ([tab] + tail)[1..] == tail;
    WordsOfWordThenSpace(path, eol, []);
    assert path + [eol] + [] == tail;
    assert ([eol] + [])[1..] == [];
  }

  /** The inverse of `Split`: the parts joined with the separator. */
  function Join(parts: seq<string>, sep: char): string
    requires |parts| >= 1
  {
    if |parts| == 1 then parts[0] else parts[0] + [sep] + Join(parts[1..], sep)
  }

  /** `s.split(sep)`: the pieces between separators, empty ones included. */
  function Split(s: string, sep: char): (parts: seq<string>)
    ensures |parts| >= 1
    ensures forall p :: p in parts ==> sep !in p
    ensures Join(parts, sep) == s
    decreases |s|
  {
    if s == [] then [[]]
    else
      var rest := Split(s[1..], sep);
      if s[0] == sep then
        assert ([[]] + rest)[1..] == rest;
        [[]] + rest
      else
        assert ([[s[0]] + rest[0]] + rest[1..])[1..] == rest[1..];
        [[s[0]] + rest[0]] + rest[1..]
  }

  /** Splitting a join of separator-free parts gives the parts back. */
  lemma {:induction false} SplitJoin(parts: seq<string>, sep: char)
    requires |parts| >= 1
    requires forall p :: p in parts ==> sep !in p
    ensures Split(Join(parts, sep), sep) == parts
    decreases |parts|
  {
    if |parts| == 1 {
      SplitFree(parts[0], sep);
    } else {
      SplitJoin(parts[1..], sep);
      SplitFreeThenSep(parts[0], sep, Join(parts[1..], sep));
      assert parts == [parts[0]] + parts[1..];
    }
  }

  lemma {:induction false} SplitFree(w: string, sep: char)
    requires sep !in w
    ensures Split(w, sep) == [w]
    decreases |w|
  {
    if w != [] {
      SplitFree(w[1..], sep);
      assert [w[0]] + w[1..] == w;
    }
  }

  lemma {:induction false} SplitFreeThenSep(w: string, sep: char, rest: string)
    requires sep !in w
    ensures Split(w + [sep] + rest, sep) == [w] + Split(rest, sep)
    decreases |w|
  {
    var s := w + [sep] + rest;
    if w == [] {
      assert s[1..] == rest;
    } else {
      assert s[1..] == w[1..] + [sep] + rest;
      SplitFreeThenSep(w[1..], sep, rest);
      assert [w[0]] + w[1..] == w;
    }
  }
}
