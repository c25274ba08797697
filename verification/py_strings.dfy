/** The parts of Python's `str` that the cleaners and the template split rely on:
    `split()` with no argument, `" ".join`, `replace`, `strip` with a character set,
    `split(sep, 1)`, and substring search. */
module PyStrings {
  import opened Wrappers

  /** `str.isspace()` for one character: the separators `str.split()` cuts at. */
  predicate IsSpace(c: char)
  {
    || c == ' ' || c == '\t' || c == '\n' || c == '\r' || c == '\U{000B}' || c == '\U{000C}'
    || ('\U{001C}' <= c <= '\U{001F}') || c == '\U{0085}' || c == '\U{00A0}' || c == '\U{1680}'
    || ('\U{2000}' <= c <= '\U{200A}') || c == '\U{2028}' || c == '\U{2029}' || c == '\U{202F}'
    || c == '\U{205F}' || c == '\U{3000}'
  }

  /** A piece produced by `split()`: non-empty and free of whitespace. */
  predicate IsWord(w: string)
  {
    w != [] && forall i :: 0 <= i < |w| ==> !IsSpace(w[i])
  }

  // ---------------------------------------------------------------------------
  // Substring search

  predicate IsPrefix(p: string, s: string)
  {
    |p| <= |s| && s[..|p|] == p
  }

  /** `p in s` for strings. */
  predicate Contains(s: string, p: string)
    decreases |s|
  {
    IsPrefix(p, s) || (s != [] && Contains(s[1..], p))
  }

  /** `p` occurs in `s` starting at index `i`. */
  predicate OccursAt(s: string, p: string, i: nat)
  {
    i + |p| <= |s| && s[i..i + |p|] == p
  }

  lemma {:induction false} ContainsIffOccurs(s: string, p: string)
    ensures Contains(s, p) <==> exists i: nat :: OccursAt(s, p, i)
    decreases |s|
  {
    if IsPrefix(p, s) {
      assert OccursAt(s, p, 0);
    } else if s != [] {
      ContainsIffOccurs(s[1..], p);
      forall i: nat | 0 < i && i + |p| <= |s|
        ensures OccursAt(s, p, i) <==> OccursAt(s[1..], p, i - 1)
      {
        assert s[1..][i - 1..i - 1 + |p|] == s[i..i + |p|];
      }
      if Contains(s[1..], p) {
        var i: nat :| OccursAt(s[1..], p, i);
        assert OccursAt(s, p, i + 1);
      }
    }
  }

  /** A one-character pattern occurs exactly when the character does. */
  lemma {:induction false} ContainsChar(s: string, c: char)
    ensures Contains(s, [c]) <==> c in s
    decreases |s|
  {
    if s != [] {
      ContainsChar(s[1..], c);
      assert s == [s[0]] + s[1..];
    }
  }

  /** A text that holds `p + q` holds `p`. */
  lemma {:induction false} ContainsPrefixOfPattern(s: string, p: string, q: string)
    ensures Contains(s, p + q) ==> Contains(s, p)
    decreases |s|
  {
    if IsPrefix(p + q, s) {
      assert s[..|p|] == (p + q)[..|p|] == p;
    } else if s != [] {
      ContainsPrefixOfPattern(s[1..], p, q);
    }
  }

  // ---------------------------------------------------------------------------
  // `str.split()` and `sep.join(parts)`

  /** The text after its leading whitespace. */
  function DropSpaces(s: string): (r: string)
    ensures |r| <= |s| && r == s[|s| - |r|..]
    ensures forall i :: 0 <= i < |s| - |r| ==> IsSpace(s[i])
    ensures r == [] || !IsSpace(r[0])
  {
    if s != [] && IsSpace(s[0]) then DropSpaces(s[1..]) else s
  }

  /** The longest prefix free of whitespace. */
  function LeadingWord(s: string): (w: string)
    ensures |w| <= |s| && w == s[..|w|]
    ensures forall i :: 0 <= i < |w| ==> !IsSpace(w[i])
    ensures |w| < |s| ==> IsSpace(s[|w|])
  {
    if s == [] || IsSpace(s[0]) then [] else [s[0]] + LeadingWord(s[1..])
  }

  /** `s.split()`: the maximal runs of non-whitespace, in order, no empty pieces. */
  function Split(s: string): (words: seq<string>)
    ensures forall k :: 0 <= k < |words| ==> IsWord(words[k])
    decreases |s|
  {
    var t := DropSpaces(s);
    if t == [] then []
    else
      var w := LeadingWord(t);
      [w] + Split(t[|w|..])
  }

  /** `sep.join(parts)`. */
  function Join(sep: string, parts: seq<string>): string
  {
    if parts == [] then []
    else if |parts| == 1 then parts[0]
    else parts[0] + sep + Join(sep, parts[1..])
  }

  /** `" ".join(s.split())`. */
  function Collapse(s: string): string
  {
    Join(" ", Split(s))
  }

  /** Only the plain space survives as whitespace; no space at either end; never two spaces in a row. */
  ghost predicate SingleSpaced(t: string)
  {
    && (forall i :: 0 <= i < |t| ==> IsSpace(t[i]) ==> t[i] == ' ')
    && (t != [] ==> t[0] != ' ' && t[|t| - 1] != ' ')
    && (forall i, j :: 0 <= i < j < |t| && j == i + 1 ==> t[i] != ' ' || t[j] != ' ')
  }

  /** The characters of `s` other than whitespace, in order. */
  function NonSpace(s: string): (r: string)
    ensures |r| <= |s|
  {
    if s == [] then [] else (if IsSpace(s[0]) then [] else [s[0]]) + NonSpace(s[1..])
  }

  lemma {:induction false} NonSpaceAppend(a: string, b: string)
    ensures NonSpace(a + b) == NonSpace(a) + NonSpace(b)
    decreases |a|
  {
    if a == [] {
      assert a + b == b;
    } else {
      var h := if IsSpace(a[0]) then [] else [a[0]];
      assert (a + b)[0] == a[0] && (a + b)[1..] == a[1..] + b;
      NonSpaceAppend(a[1..], b);
      calc {
        NonSpace(a + b);
        h + NonSpace(a[1..] + b);
        h + (NonSpace(a[1..]) + NonSpace(b));
        (h + NonSpace(a[1..])) + NonSpace(b);
      }
    }
  }

  lemma {:induction false} NonSpaceOfWord(w: string)
    requires forall i :: 0 <= i < |w| ==> !IsSpace(w[i])
    ensures NonSpace(w) == w
    decreases |w|
  {
    if w != [] {
      NonSpaceOfWord(w[1..]);
    }
  }

  lemma {:induction false} NonSpaceOfSpaces(s: string)
    requires forall i :: 0 <= i < |s| ==> IsSpace(s[i])
    ensures NonSpace(s) == []
    decreases |s|
  {
    if s != [] {
      NonSpaceOfSpaces(s[1..]);
    }
  }

  lemma {:induction false} JoinOfWordsNonEmpty(ws: seq<string>)
    requires ws != [] && IsWord(ws[0])
    ensures Join(" ", ws) != [] && Join(" ", ws)[0] == ws[0][0]
  {
  }

  /** Joining words with one space gives single-spaced text. */
  lemma {:induction false} JoinWordsSingleSpaced(ws: seq<string>)
    requires forall k :: 0 <= k < |ws| ==> IsWord(ws[k])
    ensures SingleSpaced(Join(" ", ws))
    decreases |ws|
  {
    if |ws| > 1 {
      var w, rest := ws[0], Join(" ", ws[1..]);
      JoinWordsSingleSpaced(ws[1..]);
      JoinOfWordsNonEmpty(ws[1..]);
      var t := w + " " + rest;
      assert Join(" ", ws) == t;
      forall i | 0 <= i < |t|
        ensures IsSpace(t[i]) ==> t[i] == ' '
      {
        if i > |w| { assert t[i] == rest[i - |w| - 1]; }
      }
      forall i, j | 0 <= i < j < |t| && j == i + 1
        ensures t[i] != ' ' || t[j] != ' '
      {
        if i < |w| {
          assert t[i] == w[i];
        } else if i > |w| {
          assert t[i] == rest[i - |w| - 1] && t[j] == rest[j - |w| - 1];
        }
      }
      assert t[|t| - 1] == rest[|rest| - 1];
    }
  }

  /** After `" ".join(s.split())` the text is single-spaced. */
  lemma {:induction false} CollapseSingleSpaced(s: string)
    ensures SingleSpaced(Collapse(s))
  {
    JoinWordsSingleSpaced(Split(s));
  }

  /** One step of `split()`: skip the leading whitespace, take one word, split the rest. */
  lemma {:induction false} SplitStep(s: string)
    requires DropSpaces(s) != []
    ensures Split(s) == [LeadingWord(DropSpaces(s))] + Split(DropSpaces(s)[|LeadingWord(DropSpaces(s))|..])
  {
  }

  /** Joining a first word onto the rest. */
  lemma {:induction false} JoinCons(w: string, ws: seq<string>)
    ensures Join(" ", [w] + ws) == if ws == [] then w else w + " " + Join(" ", ws)
  {
    assert ([w] + ws)[1..] == ws;
  }

  /** Spaces, then a word, then anything: only the word and the rest's content count. */
  lemma {:induction false} NonSpaceSpacesWordRest(lead: string, w: string, r: string)
    requires forall i :: 0 <= i < |lead| ==> IsSpace(lead[i])
    requires forall i :: 0 <= i < |w| ==> !IsSpace(w[i])
    ensures NonSpace(lead + (w + r)) == w + NonSpace(r)
  {
    NonSpaceAppend(lead, w + r);
    NonSpaceOfSpaces(lead);
    NonSpaceAppend(w, r);
    NonSpaceOfWord(w);
  }

  /** A text cut into its leading spaces, a word and the rest. */
  lemma {:induction false} NonSpaceCut(s: string, t: string, w: string, r: string)
    requires |t| <= |s| && t == s[|s| - |t|..] && forall i :: 0 <= i < |s| - |t| ==> IsSpace(s[i])
    requires |w| <= |t| && w == t[..|w|] && r == t[|w|..] && forall i :: 0 <= i < |w| ==> !IsSpace(w[i])
    ensures NonSpace(s) == w + NonSpace(r)
  {
    var lead := s[..|s| - |t|];
    assert t == w + r;
    assert s == lead + (w + r);
    forall i | 0 <= i < |lead| ensures IsSpace(lead[i]) {
      assert lead[i] == s[i];
    }
    NonSpaceSpacesWordRest(lead, w, r);
  }

  /** The non-whitespace content of `s` is that of its first word and of what follows it. */
  lemma {:induction false} NonSpaceStep(s: string)
    requires DropSpaces(s) != []
    ensures NonSpace(s) == LeadingWord(DropSpaces(s)) + NonSpace(DropSpaces(s)[|LeadingWord(DropSpaces(s))|..])
  {
    var t := DropSpaces(s);
    var w := LeadingWord(t);
    NonSpaceCut(s, t, w, t[|w|..]);
  }

  /** Putting a word and a space in front adds exactly the word to the non-whitespace content. */
  lemma {:induction false} NonSpaceWordThenSpace(w: string, c: string)
    requires forall i :: 0 <= i < |w| ==> !IsSpace(w[i])
    ensures NonSpace(w + " " + c) == w + NonSpace(c)
  {
    assert w + " " + c == w + (" " + c);
    NonSpaceAppend(w, " " + c);
    NonSpaceAppend(" ", c);
    NonSpaceOfWord(w);
  }

  /** `" ".join(s.split())` keeps every non-whitespace character of `s`, in order, and adds none. */
  lemma {:induction false} CollapseKeepsNonSpace(s: string)
    ensures NonSpace(Collapse(s)) == NonSpace(s)
    decreases |s|
  {
    var t := DropSpaces(s);
    if t == [] {
      NonSpaceOfSpaces(s);
    } else {
      var w := LeadingWord(t);
      var r := t[|w|..];
      NonSpaceStep(s);
      CollapseKeepsNonSpace(r);
      SplitStep(s);
      JoinCons(w, Split(r));
      if Split(r) != [] {
        NonSpaceWordThenSpace(w, Collapse(r));
      } else {
        NonSpaceOfWord(w);
      }
    }
  }

  /** A character other than whitespace is in `NonSpace(s)` exactly when it is in `s`. */
  lemma {:induction false} NonSpaceMembership(s: string, c: char)
    requires !IsSpace(c)
    ensures c in NonSpace(s) <==> c in s
    decreases |s|
  {
    if s != [] {
      NonSpaceMembership(s[1..], c);
      assert s == [s[0]] + s[1..];
    }
  }

  /** `" ".join(s.split())` holds a character other than whitespace exactly when `s` does. */
  lemma {:induction false} CollapseMembership(s: string, c: char)
    requires !IsSpace(c)
    ensures c in Collapse(s) <==> c in s
  {
    CollapseKeepsNonSpace(s);
    NonSpaceMembership(s, c);
    NonSpaceMembership(Collapse(s), c);
  }

  /** `" ".join(s.split())` never lengthens the text; when `s` starts with whitespace
      and holds a word it is strictly shorter. */
  lemma {:induction false} CollapseNotLonger(s: string)
    ensures |Collapse(s)| <= |s|
    ensures s != [] && IsSpace(s[0]) && Split(s) != [] ==> |Collapse(s)| < |s|
    decreases |s|
  {
    var t := DropSpaces(s);
    if t != [] {
      var w := LeadingWord(t);
      var r := t[|w|..];
      CollapseNotLonger(r);
      SplitStep(s);
      JoinCons(w, Split(r));
    }
  }

  /** A suffix of single-spaced text that starts at a non-space is single-spaced. */
  lemma {:induction false} SingleSpacedTail(t: string, k: nat)
    requires SingleSpaced(t) && k < |t| && t[k] != ' '
    ensures SingleSpaced(t[k..])
  {
    var r := t[k..];
    forall i, j | 0 <= i < j < |r| && j == i + 1 ensures r[i] != ' ' || r[j] != ' ' {
      assert r[i] == t[k + i] && r[j] == t[k + j];
    }
  }

  /** In single-spaced text the first word is followed, if at all, by one space and a non-space. */
  lemma {:induction false} SingleSpacedWordEnd(t: string)
    requires SingleSpaced(t) && |LeadingWord(t)| < |t|
    ensures t[|LeadingWord(t)|] == ' '
    ensures |LeadingWord(t)| + 1 < |t| && !IsSpace(t[|LeadingWord(t)| + 1])
  {
    var n := |LeadingWord(t)|;
    assert t[n] == ' ';
    assert n + 1 < |t|;
    assert t[n] != ' ' || t[n + 1] != ' ';
  }

  /** `split()` ignores one leading space before a non-space. */
  lemma {:induction false} SplitSkipsSpace(x: string)
    requires |x| > 1 && IsSpace(x[0]) && !IsSpace(x[1])
    ensures Split(x) == Split(x[1..])
  {
    assert DropSpaces(x) == DropSpaces(x[1..]) == x[1..];
  }

  /** A text made of one word collapses to itself. */
  lemma {:induction false} CollapseOneWord(t: string)
    requires t != [] && |LeadingWord(t)| == |t|
    ensures Collapse(t) == t
  {
    assert !IsSpace(t[0]);
    assert DropSpaces(t) == t;
    SplitStep(t);
    assert t[|t|..] == [];
    JoinCons(t, []);
  }

  /** A first word followed by one space and a non-space collapses to the word, one space,
      and the collapsed rest. */
  lemma {:induction false} CollapseStep(t: string)
    requires t != [] && !IsSpace(t[0])
    requires |LeadingWord(t)| + 1 < |t| && !IsSpace(t[|LeadingWord(t)| + 1])
    ensures Collapse(t) == LeadingWord(t) + " " + Collapse(t[|LeadingWord(t)| + 1..])
  {
    var w := LeadingWord(t);
    var r := t[|w| + 1..];
    assert DropSpaces(t) == t;
    SplitStep(t);
    SplitSkipsSpace(t[|w|..]);
    assert t[|w|..][1..] == r;
    assert DropSpaces(r) == r;
    SplitStep(r);
    JoinCons(w, Split(r));
  }

  /** A text is its part before a space, the space, and its part after. */
  lemma {:induction false} Recompose(t: string, n: nat)
    requires n < |t| && t[n] == ' '
    ensures t[..n] + " " + t[n + 1..] == t
  {
  }

  /** Single-spaced text is left as it is by `" ".join(t.split())`. */
  lemma {:induction false} CollapseFixesSingleSpaced(t: string)
    requires SingleSpaced(t)
    ensures Collapse(t) == t
    decreases |t|
  {
    if t != [] {
      var w := LeadingWord(t);
      if |w| == |t| {
        CollapseOneWord(t);
      } else {
        SingleSpacedWordEnd(t);
        SingleSpacedTail(t, |w| + 1);
        CollapseFixesSingleSpaced(t[|w| + 1..]);
        CollapseStep(t);
        Recompose(t, |w|);
      }
    }
  }

  /** Collapsing whitespace twice is the same as once. */
  lemma {:induction false} CollapseIdempotent(s: string)
    ensures Collapse(Collapse(s)) == Collapse(s)
  {
    CollapseSingleSpaced(s);
    CollapseFixesSingleSpaced(Collapse(s));
  }

  /** Single-spaced text holds no two spaces in a row. */
  lemma {:induction false} SingleSpacedNoDoubleSpace(t: string)
    requires SingleSpaced(t)
    ensures !Contains(t, "  ")
  {
    ContainsIffOccurs(t, "  ");
    forall i: nat ensures !OccursAt(t, "  ", i) {
      if i + 2 <= |t| {
        assert t[i..i + 2] == [t[i], t[i + 1]];
        assert t[i] != ' ' || t[i + 1] != ' ';
      }
    }
  }

  // ---------------------------------------------------------------------------
  // `s.replace(pat, rep)`: one left-to-right pass, non-overlapping matches

  function Replace(s: string, pat: string, rep: string): string
    decreases |s|
  {
    if pat == [] then
      (if s == [] then rep else rep + [s[0]] + Replace(s[1..], pat, rep))
    else if |s| < |pat| then s
    else if s[..|pat|] == pat then rep + Replace(s[|pat|..], pat, rep)
    else [s[0]] + Replace(s[1..], pat, rep)
  }

  /** `s.replace(pat, "")`. */
  function Delete(s: string, pat: string): string
  {
    Replace(s, pat, "")
  }

  /** One step of a deletion where the pattern does not start the text. */
  lemma {:induction false} DeleteMiss(s: string, pat: string)
    requires pat != [] && |s| >= |pat| && s[..|pat|] != pat
    ensures Delete(s, pat) == [s[0]] + Delete(s[1..], pat)
  {
  }

  /** One step of a deletion where the pattern starts the text. */
  lemma {:induction false} DeleteHit(s: string, pat: string)
    requires pat != [] && |s| >= |pat| && s[..|pat|] == pat
    ensures Delete(s, pat) == Delete(s[|pat|..], pat)
  {
  }

  /** A text that holds a pattern holds each of the pattern's characters. */
  lemma {:induction false} ContainsHasChars(s: string, p: string)
    ensures Contains(s, p) ==> forall c :: c in p ==> c in s
    decreases |s|
  {
    if IsPrefix(p, s) {
      assert p == s[..|p|];
    } else if s != [] {
      ContainsHasChars(s[1..], p);
    }
  }

  /** A deletion whose pattern has a character the text lacks changes nothing. */
  lemma {:induction false} DeleteMissingChar(s: string, pat: string, c: char)
    requires c in pat && c !in s
    ensures Delete(s, pat) == s
  {
    ContainsHasChars(s, pat);
    ReplaceAbsent(s, pat, "");
  }

  /** A replacement whose pattern does not occur changes nothing. */
  lemma {:induction false} ReplaceAbsent(s: string, pat: string, rep: string)
    requires pat != [] && !Contains(s, pat)
    ensures Replace(s, pat, rep) == s
    decreases |s|
  {
    if |s| >= |pat| {
      assert !IsPrefix(pat, s);
      ReplaceAbsent(s[1..], pat, rep);
      assert s == [s[0]] + s[1..];
    }
  }

  /** Deleting only ever removes characters: the result's characters are among the
      input's, counted with multiplicity. */
  lemma {:induction false} DeleteShrinks(s: string, pat: string)
    ensures multiset(Delete(s, pat)) <= multiset(s)
    ensures |Delete(s, pat)| <= |s|
    decreases |s|
  {
    if pat == [] {
      if s != [] {
        DeleteShrinks(s[1..], pat);
        assert s == [s[0]] + s[1..];
      }
    } else if |s| >= |pat| {
      if s[..|pat|] == pat {
        DeleteShrinks(s[|pat|..], pat);
        assert s == s[..|pat|] + s[|pat|..];
      } else {
        DeleteShrinks(s[1..], pat);
        assert s == [s[0]] + s[1..];
      }
    }
  }

  /** A character absent from the input is absent after any deletion. */
  lemma {:induction false} DeleteKeepsAbsent(s: string, pat: string, c: char)
    requires c !in s
    ensures c !in Delete(s, pat)
  {
    DeleteShrinks(s, pat);
    assert c !in multiset(s);
  }

  /** Deleting a one-character pattern removes every occurrence of that character. */
  lemma {:induction false} DeleteCharRemovesAll(s: string, c: char)
    ensures c !in Delete(s, [c])
    decreases |s|
  {
    if s != [] {
      DeleteCharRemovesAll(s[1..], c);
    }
  }

  /** Deleting a one-character pattern works piece by piece. */
  lemma {:induction false} DeleteCharAppend(a: string, b: string, c: char)
    ensures Delete(a + b, [c]) == Delete(a, [c]) + Delete(b, [c])
    decreases |a|
  {
    if a == [] {
      assert a + b == b;
    } else {
      assert (a + b)[..1] == a[..1] && (a + b)[1..] == a[1..] + b;
      DeleteCharAppend(a[1..], b, c);
    }
  }

  /** Deleting a one-character pattern keeps every other character. */
  lemma {:induction false} DeleteCharMembership(s: string, c: char, x: char)
    requires x != c
    ensures x in Delete(s, [c]) <==> x in s
    decreases |s|
  {
    if s != [] {
      DeleteCharMembership(s[1..], c, x);
      assert s == [s[0]] + s[1..];
    }
  }

  /** Dropping whitespace and deleting a character other than whitespace commute. */
  lemma {:induction false} NonSpaceDeleteChar(s: string, c: char)
    requires !IsSpace(c)
    ensures NonSpace(Delete(s, [c])) == Delete(NonSpace(s), [c])
    decreases |s|
  {
    if s != [] {
      NonSpaceDeleteChar(s[1..], c);
      var h := if IsSpace(s[0]) then [] else [s[0]];
      assert NonSpace(s) == h + NonSpace(s[1..]);
      DeleteCharAppend(h, NonSpace(s[1..]), c);
      if s[0] != c {
        assert s[..1] != [c];
        DeleteMiss(s, [c]);
        assert NonSpace([s[0]] + Delete(s[1..], [c])) == h + NonSpace(Delete(s[1..], [c])) by {
          NonSpaceAppend([s[0]], Delete(s[1..], [c]));
        }
        assert Delete(h, [c]) == h;
      } else {
        assert s[..1] == [c];
        DeleteHit(s, [c]);
        assert h == [c];
        DeleteHit(h, [c]);
        assert h[1..] == [];
      }
    }
  }

  /** Number of copies of `c` that `s` starts with. */
  function Lead(s: string, c: char): (n: nat)
    ensures n <= |s|
  {
    if s != [] && s[0] == c then 1 + Lead(s[1..], c) else 0
  }

  /** Three leading backticks make a leading run of at least three, and back. */
  lemma {:induction false} FenceLead(s: string)
    ensures IsPrefix("```", s) <==> Lead(s, '`') >= 3
  {
    if |s| >= 3 {
      assert s[1..][0] == s[1] && s[1..][1..][0] == s[2];
      assert Lead(s, '`') >= 3 <==> s[0] == '`' && s[1] == '`' && s[2] == '`' by {
        if s[0] == '`' && s[1] == '`' {
          assert Lead(s, '`') == 2 + Lead(s[1..][1..], '`');
        }
      }
      assert s[..3] == "```" <==> s[0] == '`' && s[1] == '`' && s[2] == '`';
    } else {
      assert Lead(s, '`') < 3;
    }
  }

  /** Deleting three backticks cuts the leading run of backticks down to its length modulo 3. */
  lemma {:induction false} DeleteFenceLead(s: string)
    ensures Lead(Delete(s, "```"), '`') == Lead(s, '`') % 3
    decreases |s|
  {
    FenceLead(s);
    if |s| < 3 {
      assert Delete(s, "```") == s;
    } else if s[..3] == "```" {
      assert Delete(s, "```") == Delete(s[3..], "```");
      assert Lead(s, '`') == 1 + Lead(s[1..], '`');
      assert Lead(s[1..], '`') == 1 + Lead(s[1..][1..], '`');
      assert Lead(s[1..][1..], '`') == 1 + Lead(s[1..][1..][1..], '`');
      assert s[1..][1..][1..] == s[3..];
      DeleteFenceLead(s[3..]);
      ModThreeShift(Lead(s[3..], '`'));
    } else {
      assert Delete(s, "```") == [s[0]] + Delete(s[1..], "```");
      DeleteFenceLead(s[1..]);
      if s[0] == '`' {
        assert Lead(s, '`') == 1 + Lead(s[1..], '`');
        assert Lead([s[0]] + Delete(s[1..], "```"), '`') == 1 + Lead(Delete(s[1..], "```"), '`');
      }
    }
  }

  /** Three more leave the remainder modulo 3 unchanged. */
  lemma {:induction false} ModThreeShift(x: nat)
    ensures (x + 3) % 3 == x % 3
  {
  }

  /** After `s.replace("```", "")` no three backticks remain in a row: a single pass leaves
      at most two of every run of backticks, and deletes nothing but backticks. */
  lemma {:induction false} DeleteFenceLeavesNone(s: string)
    ensures !Contains(Delete(s, "```"), "```")
    decreases |s|
  {
    var d := Delete(s, "```");
    DeleteFenceLead(s);
    FenceLead(d);
    if |s| < 3 {
      ContainsIffOccurs(d, "```");
    } else if s[..3] == "```" {
      assert d == Delete(s[3..], "```");
      DeleteFenceLeavesNone(s[3..]);
    } else {
      DeleteFenceLeavesNone(s[1..]);
      assert d == [s[0]] + Delete(s[1..], "```");
      assert d[1..] == Delete(s[1..], "```");
    }
  }

  // ---------------------------------------------------------------------------
  // `s.strip(chars)`

  /** `s.lstrip(chars)`. */
  function LStrip(s: string, chars: set<char>): (r: string)
    ensures |r| <= |s| && r == s[|s| - |r|..]
    ensures forall i :: 0 <= i < |s| - |r| ==> s[i] in chars
    ensures r == [] || r[0] !in chars
  {
    if s != [] && s[0] in chars then LStrip(s[1..], chars) else s
  }

  /** `s.rstrip(chars)`. */
  function RStrip(s: string, chars: set<char>): (r: string)
    ensures |r| <= |s| && r == s[..|r|]
    ensures forall i :: |r| <= i < |s| ==> s[i] in chars
    ensures r == [] || r[|r| - 1] !in chars
  {
    if s != [] && s[|s| - 1] in chars then RStrip(s[..|s| - 1], chars) else s
  }

  /** `s.strip(chars)`. */
  function Strip(s: string, chars: set<char>): (r: string)
    ensures r == [] || (r[0] !in chars && r[|r| - 1] !in chars)
  {
    RStrip(LStrip(s, chars), chars)
  }

  /** A prefix of a suffix is a slice, and the rest of the suffix is the rest of the text. */
  lemma {:induction false} PrefixOfSuffix(s: string, l: string, r: string, i: nat)
    requires i <= |s| && l == s[i..] && |r| <= |l| && r == l[..|r|]
    ensures i + |r| <= |s| && r == s[i..i + |r|]
    ensures forall k :: i + |r| <= k < |s| ==> s[k] == l[k - i]
  {
  }

  /** `s.strip(chars)` is the slice of `s` left once every leading and every trailing
      character from `chars` is cut off. */
  lemma {:induction false} StripIsSlice(s: string, chars: set<char>)
    ensures var r := Strip(s, chars); var i := |s| - |LStrip(s, chars)|;
      && i + |r| <= |s| && r == s[i..i + |r|]
      && (forall k :: 0 <= k < i ==> s[k] in chars)
      && (forall k :: i + |r| <= k < |s| ==> s[k] in chars)
  {
    var l := LStrip(s, chars);
    var r := RStrip(l, chars);
    assert r == Strip(s, chars);
    var i := StrippedBetween(s, l, r, chars);
  }

  /** A suffix cut off after leading members of `chars`, then a prefix of it cut off before
      trailing members of `chars`: what is left is a slice with only members of `chars` around. */
  lemma {:induction false} StrippedBetween(s: string, l: string, r: string, chars: set<char>) returns (i: nat)
    requires |l| <= |s| && l == s[|s| - |l|..] && forall k :: 0 <= k < |s| - |l| ==> s[k] in chars
    requires |r| <= |l| && r == l[..|r|] && forall k :: |r| <= k < |l| ==> l[k] in chars
    ensures i == |s| - |l| && i + |r| <= |s| && r == s[i..i + |r|]
    ensures forall k :: 0 <= k < i ==> s[k] in chars
    ensures forall k :: i + |r| <= k < |s| ==> s[k] in chars
  {
    i := |s| - |l|;
    PrefixOfSuffix(s, l, r, i);
    forall k | i + |r| <= k < |s| ensures s[k] in chars {
      assert s[k] == l[k - i];
    }
  }

  // ---------------------------------------------------------------------------
  // Counting the places where a piece occurs

  /** The number of positions at which `p` starts in `s`. */
  function Occurrences(s: string, p: string): nat
    decreases |s|
  {
    if |s| < |p| then 0
    else (if IsPrefix(p, s) then 1 else 0) + (if s == [] then 0 else Occurrences(s[1..], p))
  }

  /** A non-empty piece occurs somewhere exactly when it occurs at least once. */
  lemma {:induction false} OccurrencesPositive(s: string, p: string)
    requires p != []
    ensures Contains(s, p) <==> Occurrences(s, p) > 0
    decreases |s|
  {
    if s != [] {
      OccurrencesPositive(s[1..], p);
    }
  }

  /** Dropping a front in which `q` never starts keeps the count. */
  lemma {:induction false} OccurrencesSkip(s: string, q: string, d: nat)
    requires q != [] && d <= |s|
    requires forall j: nat :: j < d ==> !OccursAt(s, q, j)
    ensures Occurrences(s, q) == Occurrences(s[d..], q)
    decreases d
  {
    if d == 0 {
      assert s[d..] == s;
    } else {
      assert !OccursAt(s, q, 0);
      assert |s| >= |q| ==> s[0..|q|] == s[..|q|];
      var t := s[1..];
      forall j: nat | j < d - 1 ensures !OccursAt(t, q, j) {
        assert !OccursAt(s, q, j + 1);
        if j + |q| <= |t| {
          assert t[j..j + |q|] == s[j + 1..j + 1 + |q|];
        }
      }
      OccurrencesSkip(t, q, d - 1);
      assert t[d - 1..] == s[d..];
    }
  }

  /** Joining two texts keeps the occurrences of both, and may add some across the seam. */
  lemma {:induction false} OccurrencesAppend(a: string, b: string, p: string)
    requires p != []
    ensures Occurrences(a + b, p) >= Occurrences(a, p) + Occurrences(b, p)
    decreases |a|
  {
    if a == [] {
      assert a + b == b;
    } else {
      OccurrencesAppend(a[1..], b, p);
      assert (a + b)[1..] == a[1..] + b;
      if |a| >= |p| {
        assert (a + b)[..|p|] == a[..|p|];
      }
    }
  }

  /** A whitespace-free piece never crosses a seam where whitespace begins. */
  lemma {:induction false} OccurrencesSplitAtSpace(w: string, r: string, p: string)
    requires p != [] && forall k :: 0 <= k < |p| ==> !IsSpace(p[k])
    requires r == [] || IsSpace(r[0])
    ensures Occurrences(w + r, p) == Occurrences(w, p) + Occurrences(r, p)
    decreases |w|
  {
    if w == [] {
      assert w + r == r;
    } else {
      OccurrencesSplitAtSpace(w[1..], r, p);
      assert (w + r)[1..] == w[1..] + r;
      if |w| >= |p| {
        assert (w + r)[..|p|] == w[..|p|];
      } else if |w + r| >= |p| {
        assert (w + r)[..|p|][|w|] == r[0];
      }
    }
  }

  /** `" ".join(s.split())` never lowers the number of places where a whitespace-free piece
      occurs: each such place lies inside one word, and the words are kept in order. */
  lemma {:induction false} CollapseKeepsOccurrences(s: string, p: string)
    requires p != [] && forall k :: 0 <= k < |p| ==> !IsSpace(p[k])
    ensures Occurrences(Collapse(s), p) >= Occurrences(s, p)
    decreases |s|
  {
    var t := DropSpaces(s);
    OccurrencesDropSpaces(s, p);
    if t != [] {
      var w := LeadingWord(t);
      var r := t[|w|..];
      CollapseFirstWord(s, t, w, r);
      OccurrencesWordThenRest(t, w, r, p);
      CollapseKeepsOccurrences(r, p);
      OccurrencesJoined(w, Collapse(r), p);
    }
  }

  /** Leading whitespace holds no occurrence of a whitespace-free piece. */
  lemma {:induction false} OccurrencesDropSpaces(s: string, p: string)
    requires p != [] && !IsSpace(p[0])
    ensures Occurrences(DropSpaces(s), p) == Occurrences(s, p)
  {
    var t := DropSpaces(s);
    forall j: nat | j < |s| - |t| ensures !OccursAt(s, p, j) {
      if j + |p| <= |s| {
        assert s[j..j + |p|][0] == s[j];
      }
    }
    OccurrencesSkip(s, p, |s| - |t|);
  }

  /** A text that starts with a word: the occurrences of a whitespace-free piece are those in
      the word and those in the rest, which is shorter. */
  lemma {:induction false} OccurrencesWordThenRest(t: string, w: string, r: string, p: string)
    requires t != [] && !IsSpace(t[0]) && w == LeadingWord(t) && r == t[|w|..]
    requires p != [] && forall k :: 0 <= k < |p| ==> !IsSpace(p[k])
    ensures Occurrences(t, p) == Occurrences(w, p) + Occurrences(r, p) && |r| < |t|
  {
    assert t == w + r;
    OccurrencesSplitAtSpace(w, r, p);
  }

  /** A word joined to a collapsed rest by a space keeps the occurrences of both. */
  lemma {:induction false} OccurrencesJoined(w: string, c: string, p: string)
    requires p != []
    ensures Occurrences(w + (if c == [] then [] else " " + c), p) >= Occurrences(w, p) + Occurrences(c, p)
  {
    var tail := if c == [] then [] else " " + c;
    if c != [] {
      OccurrencesAppend(" ", c, p);
    }
    OccurrencesAppend(w, tail, p);
  }

  // ---------------------------------------------------------------------------
  // Pieces of a text that the collapse and the deletions cannot break.

  /** An occurrence makes the text contain the piece. */
  lemma {:induction false} OccursContains(s: string, p: string, i: nat)
    requires OccursAt(s, p, i)
    ensures Contains(s, p)
  {
    ContainsIffOccurs(s, p);
  }

  /** An occurrence in either part is an occurrence in the whole. */
  lemma {:induction false} ContainsAppend(a: string, b: string, p: string)
    ensures Contains(a, p) ==> Contains(a + b, p)
    ensures Contains(b, p) ==> Contains(a + b, p)
  {
    ContainsIffOccurs(a, p);
    ContainsIffOccurs(b, p);
    ContainsIffOccurs(a + b, p);
    if Contains(a, p) {
      var i: nat :| OccursAt(a, p, i);
      assert (a + b)[i..i + |p|] == a[i..i + |p|];
      assert OccursAt(a + b, p, i);
    }
    if Contains(b, p) {
      var i: nat :| OccursAt(b, p, i);
      assert (a + b)[|a| + i..|a| + i + |p|] == b[i..i + |p|];
      assert OccursAt(a + b, p, |a| + i);
    }
  }

  /** The collapse of a text holding a word: its first word, then, when more words follow,
      a space and the collapse of the rest. */
  lemma {:induction false} CollapseFirstWord(s: string, t: string, w: string, r: string)
    requires t == DropSpaces(s) && t != [] && w == LeadingWord(t) && r == t[|w|..]
    ensures Collapse(s) == w + (if Collapse(r) == [] then [] else " " + Collapse(r))
  {
    SplitStep(s);
    JoinWord(w, Split(r));
  }

  /** Joining a word onto words: a space goes in only when the rest is not empty. */
  lemma {:induction false} JoinWord(w: string, ws: seq<string>)
    requires forall k :: 0 <= k < |ws| ==> IsWord(ws[k])
    ensures Join(" ", [w] + ws) == w + (if Join(" ", ws) == [] then [] else " " + Join(" ", ws))
  {
    JoinCons(w, ws);
    if ws != [] {
      JoinOfWordsNonEmpty(ws);
    }
  }

  /** A slice of a slice is a slice. */
  lemma {:induction false} SliceOfSlice(s: string, a: nat, b: nat, c: nat, d: nat)
    requires a <= b <= |s| && c <= d <= b - a
    ensures s[a..b][c..d] == s[a + c..a + d]
  {
    assert forall k | 0 <= k < d - c :: s[a..b][c..d][k] == s[a + c..a + d][k];
  }

  /** A text holding a word is leading spaces, its first word and a rest that is empty or
      starts with whitespace; a piece of the word, or of the collapse of the rest, is a piece of
      the collapse of the whole. */
  lemma {:induction false} FirstWordCut(s: string, i: nat, p: string) returns (n: nat, w: string, r: string)
    requires i < |s| && !IsSpace(s[i])
    ensures n + |w| + |r| == |s| && |w| >= 1 && w == s[n..n + |w|] && r == s[n + |w|..]
    ensures forall k :: 0 <= k < n ==> IsSpace(s[k])
    ensures r != [] ==> IsSpace(r[0])
    ensures Contains(w, p) || Contains(Collapse(r), p) ==> Contains(Collapse(s), p)
  {
    var t := DropSpaces(s);
    assert t != [];
    w := LeadingWord(t);
    r := t[|w|..];
    n := CutSlices(s, t, w, r);
    CollapseFirstWord(s, t, w, r);
    ContainsJoined(w, Collapse(r), p);
  }

  /** A suffix split into a head and the rest: both are slices of the whole text. */
  lemma {:induction false} CutSlices(s: string, t: string, w: string, r: string) returns (n: nat)
    requires |t| <= |s| && t == s[|s| - |t|..] && |w| <= |t| && w == t[..|w|] && r == t[|w|..]
    ensures n == |s| - |t| && n + |w| + |r| == |s| && w == s[n..n + |w|] && r == s[n + |w|..]
  {
    n := |s| - |t|;
    assert w == s[n..n + |w|] by {
      forall k | 0 <= k < |w| ensures w[k] == s[n + k] {
        assert w[k] == t[k];
      }
    }
    assert r == s[n + |w|..] by {
      forall k | 0 <= k < |r| ensures r[k] == s[n + |w| + k] {
        assert r[k] == t[|w| + k];
      }
    }
  }

  /** Where a whitespace-free piece can stand in leading spaces, a word and a rest that starts
      with whitespace: inside the word, or wholly in the rest. */
  lemma {:induction false} LocatePiece(s: string, n: nat, w: string, r: string, p: string, i: nat)
    returns (j: nat, inWord: bool)
    requires n + |w| + |r| == |s| && w == s[n..n + |w|] && r == s[n + |w|..]
    requires forall k :: 0 <= k < n ==> IsSpace(s[k])
    requires r != [] ==> IsSpace(r[0])
    requires p != [] && OccursAt(s, p, i) && forall k :: 0 <= k < |p| ==> !IsSpace(p[k])
    ensures inWord ==> Contains(w, p)
    ensures !inWord ==> OccursAt(r, p, j)
  {
    forall m | i <= m < i + |p| ensures !IsSpace(s[m]) {
      assert s[m] == s[i..i + |p|][m - i];
    }
    assert !IsSpace(s[i]);
    assert n <= i;
    inWord := i + |p| <= n + |w|;
    j := 0;
    if inWord {
      SliceOfSlice(s, n, n + |w|, i - n, i - n + |p|);
      OccursContains(w, p, i - n);
    } else {
      assert r != [] ==> s[n + |w|] == r[0];
      assert n + |w| <= i;
      j := i - n - |w|;
      SliceOfSlice(s, n + |w|, |s|, j, j + |p|);
    }
  }

  /** A piece of the text free of whitespace lies inside one word, so the collapse keeps it. */
  lemma {:induction false} CollapseKeepsSpaceFree(s: string, p: string, i: nat)
    requires p != [] && OccursAt(s, p, i)
    requires forall k :: 0 <= k < |p| ==> !IsSpace(p[k])
    ensures Contains(Collapse(s), p)
    decreases |s|
  {
    var r, j, found := CollapseKeepsStep(s, p, i);
    if !found {
      CollapseKeepsSpaceFree(r, p, j);
    }
  }

  /** One word of the collapse: either it holds the piece, or the piece lies wholly in a shorter
      rest whose collapse follows that word. */
  lemma {:induction false} CollapseKeepsStep(s: string, p: string, i: nat) returns (r: string, j: nat, found: bool)
    requires p != [] && OccursAt(s, p, i)
    requires forall k :: 0 <= k < |p| ==> !IsSpace(p[k])
    ensures found ==> Contains(Collapse(s), p)
    ensures !found ==> |r| < |s| && OccursAt(r, p, j)
    ensures !found ==> (Contains(Collapse(r), p) ==> Contains(Collapse(s), p))
  {
    assert s[i] == s[i..i + |p|][0];
    var n, w;
    n, w, r := FirstWordCut(s, i, p);
    var inWord;
    j, inWord := LocatePiece(s, n, w, r, p, i);
    found := inWord;
  }

  /** A piece of either side is a piece of the two joined by a space. */
  lemma {:induction false} ContainsJoined(w: string, c: string, p: string)
    ensures Contains(w, p) || Contains(c, p) ==> Contains(w + (if c == [] then [] else " " + c), p)
  {
    var tail := if c == [] then [] else " " + c;
    if c != [] {
      assert " " + c == [' '] + c;
      ContainsAppend([' '], c, p);
    }
    ContainsAppend(w, tail, p);
  }

  /** No occurrence of `pat` overlaps the occurrence of `q` at `i`. */
  ghost predicate ApartFrom(s: string, pat: string, q: string, i: nat)
  {
    forall j: nat :: j < i + |q| && i < j + |pat| ==> !OccursAt(s, pat, j)
  }

  /** Two patterns whose first characters recur in neither of them, and which differ at
      position `k`, cannot overlap anywhere. */
  lemma {:induction false} Apart(s: string, pat: string, q: string, i: nat, k: nat)
    requires OccursAt(s, q, i) && pat != [] && q != []
    requires forall m :: 0 < m < |pat| ==> pat[m] != q[0]
    requires forall m :: 0 < m < |q| ==> q[m] != pat[0]
    requires k < |pat| && k < |q| && pat[k] != q[k]
    ensures ApartFrom(s, pat, q, i)
  {
    forall j: nat | j < i + |q| && i < j + |pat| ensures !OccursAt(s, pat, j) {
      if j < i {
        assert s[i] == s[i..i + |q|][0];
        if j + |pat| <= |s| {
          assert s[j..j + |pat|][i - j] == s[i];
        }
      } else if j > i {
        assert s[j] == s[i..i + |q|][j - i];
        if j + |pat| <= |s| {
          assert s[j..j + |pat|][0] == s[j];
        }
      } else {
        assert s[i + k] == s[i..i + |q|][k];
        if j + |pat| <= |s| {
          assert s[j..j + |pat|][k] == s[i + k];
        }
      }
    }
  }

  /** A prefix inside which no occurrence of `pat` starts passes the deletion unchanged, ahead
      of the deletion of the rest. */
  lemma {:induction false} DeleteKeepsPrefix(s: string, pat: string, q: string)
    requires pat != [] && IsPrefix(q, s)
    requires forall j: nat :: j < |q| ==> !OccursAt(s, pat, j)
    ensures Delete(s, pat) == q + Delete(s[|q|..], pat)
    ensures IsPrefix(q, Delete(s, pat))
    decreases |q|
  {
    if q == [] {
      assert s[|q|..] == s;
    } else if |s| < |pat| {
      assert s == q + s[|q|..];
    } else {
      assert !OccursAt(s, pat, 0);
      assert s[0..|pat|] == s[..|pat|];
      DeleteMiss(s, pat);
      var t := s[1..];
      forall j: nat | j < |q| - 1 ensures !OccursAt(t, pat, j) {
        assert !OccursAt(s, pat, j + 1);
        if j + |pat| <= |t| {
          assert t[j..j + |pat|] == s[j + 1..j + 1 + |pat|];
        }
      }
      assert t[..|q| - 1] == q[1..];
      DeleteKeepsPrefix(t, pat, q[1..]);
      assert t[|q| - 1..] == s[|q|..];
      assert q == [s[0]] + q[1..];
    }
  }

  /** Cutting `d` characters off the front moves an occurrence and its clearance with it. */
  lemma {:induction false} ApartShift(s: string, pat: string, q: string, i: nat, d: nat)
    requires d <= i && OccursAt(s, q, i) && ApartFrom(s, pat, q, i)
    ensures OccursAt(s[d..], q, i - d) && ApartFrom(s[d..], pat, q, i - d)
  {
    var t := s[d..];
    assert t[i - d..i - d + |q|] == s[i..i + |q|];
    forall j: nat | j < i - d + |q| && i - d < j + |pat| ensures !OccursAt(t, pat, j) {
      assert !OccursAt(s, pat, j + d);
      if j + |pat| <= |t| {
        assert t[j..j + |pat|] == s[j + d..j + d + |pat|];
      }
    }
  }

  /** `s.replace(pat, "")` keeps the `q` at `i` in place: the text before it and the text after
      it are rewritten on their own, and `q` stands between the two results. */
  ghost predicate DeletesAround(s: string, pat: string, q: string, i: nat)
  {
    i + |q| <= |s| && Delete(s, pat) == Delete(s[..i], pat) + q + Delete(s[i + |q|..], pat)
  }

  /** One pass of `replace(pat, "")` keeps an occurrence of `q` that no match of `pat` overlaps
      where it stands. */
  lemma {:induction false} DeleteKeepsOccurrence(s: string, pat: string, q: string, i: nat)
    requires pat != [] && OccursAt(s, q, i) && ApartFrom(s, pat, q, i)
    ensures DeletesAround(s, pat, q, i)
    ensures Contains(Delete(s, pat), q)
    decreases |s|
  {
    if i == 0 {
      assert s[0..|q|] == s[..|q|];
      DeleteKeepsPrefix(s, pat, q);
      assert s[..0] == [];
    } else if |s| < |pat| {
      assert s == s[..i] + q + s[i + |q|..];
    } else if s[..|pat|] == pat {
      assert s[0..|pat|] == s[..|pat|];
      assert OccursAt(s, pat, 0);
      assert |pat| <= i;
      ApartShift(s, pat, q, i, |pat|);
      DeleteKeepsOccurrence(s[|pat|..], pat, q, i - |pat|);
      HitJoined(s, pat, q, i);
    } else {
      ApartShift(s, pat, q, i, 1);
      DeleteKeepsOccurrence(s[1..], pat, q, i - 1);
      MissJoined(s, pat, q, i);
    }
    ContainsMiddle(Delete(s[..i], pat), q, Delete(s[i + |q|..], pat));
  }

  /** The step of `DeleteKeepsOccurrence` where the pattern starts the text. */
  lemma {:induction false} HitJoined(s: string, pat: string, q: string, i: nat)
    requires pat != [] && |pat| <= i && |s| >= |pat| && s[..|pat|] == pat
    requires DeletesAround(s[|pat|..], pat, q, i - |pat|)
    ensures DeletesAround(s, pat, q, i)
  {
    var t := s[|pat|..];
    DeleteHit(s, pat);
    var u := s[..i];
    assert u[..|pat|] == pat;
    DeleteHit(u, pat);
    assert u[|pat|..] == t[..i - |pat|];
    assert t[i - |pat| + |q|..] == s[i + |q|..];
  }

  /** The step of `DeleteKeepsOccurrence` where the pattern does not start the text. */
  lemma {:induction false} MissJoined(s: string, pat: string, q: string, i: nat)
    requires pat != [] && 0 < i && |s| >= |pat| && s[..|pat|] != pat
    requires DeletesAround(s[1..], pat, q, i - 1)
    ensures DeletesAround(s, pat, q, i)
  {
    var t := s[1..];
    DeleteMiss(s, pat);
    DeleteHead(s, pat, i);
    ConsJoined(s[0], Delete(t, pat), Delete(t[..i - 1], pat), q, Delete(t[i - 1 + |q|..], pat));
    assert t[i - 1 + |q|..] == s[i + |q|..];
  }

  /** A prefix of a text that the pattern does not start loses nothing at its head. */
  lemma {:induction false} DeleteHead(s: string, pat: string, i: nat)
    requires pat != [] && 0 < i <= |s| && |s| >= |pat| && s[..|pat|] != pat
    ensures Delete(s[..i], pat) == [s[0]] + Delete(s[1..][..i - 1], pat)
  {
    var u := s[..i];
    assert u[1..] == s[1..][..i - 1];
    if |u| >= |pat| {
      assert u[..|pat|] == s[..|pat|];
      DeleteMiss(u, pat);
    } else {
      assert u == [u[0]] + u[1..];
    }
  }

  /** A character put in front of a text cut around `q` joins the part before `q`. */
  lemma {:induction false} ConsJoined(c: char, x: string, a: string, q: string, b: string)
    requires x == a + q + b
    ensures [c] + x == ([c] + a) + q + b
  {
  }

  /** A text that holds `q` between two parts contains `q`. */
  lemma {:induction false} ContainsMiddle(a: string, q: string, b: string)
    ensures Contains(a + q + b, q)
  {
    assert (a + q + b)[|a|..|a| + |q|] == q;
    OccursContains(a + q + b, q, |a|);
  }

  /** An occurrence of `q` between two texts, where `pat` cannot overlap `q`, passes
      `replace(pat, "")` whole. */
  lemma {:induction false} DeleteAround(u: string, q: string, v: string, pat: string, k: nat)
    requires pat != [] && q != []
    requires forall m :: 0 < m < |pat| ==> pat[m] != q[0]
    requires forall m :: 0 < m < |q| ==> q[m] != pat[0]
    requires k < |pat| && k < |q| && pat[k] != q[k]
    ensures Delete(u + q + v, pat) == Delete(u, pat) + q + Delete(v, pat)
  {
    var s := u + q + v;
    assert s[|u|..|u| + |q|] == q;
    Apart(s, pat, q, |u|, k);
    DeleteKeepsOccurrence(s, pat, q, |u|);
    assert s[..|u|] == u;
    assert s[|u| + |q|..] == v;
  }

  /** Deleting a pattern that cannot overlap `q` keeps `q` in the text, and never lowers the
      number of places where `q` occurs. */
  lemma {:induction false} DeleteKeepsPiece(s: string, pat: string, q: string, k: nat)
    requires pat != [] && q != [] && Contains(s, q)
    requires forall m :: 0 < m < |pat| ==> pat[m] != q[0]
    requires forall m :: 0 < m < |q| ==> q[m] != pat[0]
    requires k < |pat| && k < |q| && pat[k] != q[k]
    ensures Contains(Delete(s, pat), q)
    ensures Occurrences(Delete(s, pat), q) >= Occurrences(s, q)
  {
    ContainsIffOccurs(s, q);
    var i: nat :| OccursAt(s, q, i);
    Apart(s, pat, q, i, k);
    DeleteKeepsOccurrence(s, pat, q, i);
    DeleteKeepsOccurrences(s, pat, q, k);
  }

  /** Deleting a pattern that cannot overlap `q` never lowers the number of places where `q`
      occurs. */
  lemma {:induction false} DeleteKeepsOccurrences(s: string, pat: string, q: string, k: nat)
    requires pat != [] && q != []
    requires forall m :: 0 < m < |pat| ==> pat[m] != q[0]
    requires forall m :: 0 < m < |q| ==> q[m] != pat[0]
    requires k < |pat| && k < |q| && pat[k] != q[k]
    ensures Occurrences(Delete(s, pat), q) >= Occurrences(s, q)
    decreases |s|
  {
    if |s| < |pat| {
    } else if s[..|pat|] == pat {
      DeleteHit(s, pat);
      forall j: nat | j < |pat| ensures !OccursAt(s, q, j) {
        if j == 0 {
          if |q| <= |s| {
            assert s[..|q|][k] == s[k] == s[..|pat|][k];
          }
        } else if j + |q| <= |s| {
          assert s[j..j + |q|][0] == s[j] == s[..|pat|][j];
        }
      }
      OccurrencesSkip(s, q, |pat|);
      DeleteKeepsOccurrences(s[|pat|..], pat, q, k);
    } else {
      DeleteMiss(s, pat);
      DeleteKeepsOccurrences(s[1..], pat, q, k);
      var x := Delete(s[1..], pat);
      assert ([s[0]] + x)[1..] == x;
      if IsPrefix(q, s) {
        assert s[0..|q|] == s[..|q|];
        Apart(s, pat, q, 0, k);
        DeleteKeepsPrefix(s, pat, q);
      }
    }
  }

  /** When the pattern occurs, one pass deletes at least one copy of it. */
  lemma {:induction false} DeleteShortensWhenPresent(s: string, pat: string)
    requires pat != [] && Contains(s, pat)
    ensures |Delete(s, pat)| <= |s| - |pat|
    decreases |s|
  {
    if IsPrefix(pat, s) {
      DeleteHit(s, pat);
      DeleteShrinks(s[|pat|..], pat);
    } else {
      DeleteShortensWhenPresent(s[1..], pat);
      DeleteMiss(s, pat);
    }
  }

  /** `s.replace(pat, "")` changes the text exactly when `pat` occurs in it. */
  lemma {:induction false} DeleteChangesIffContains(s: string, pat: string)
    requires pat != []
    ensures Delete(s, pat) == s <==> !Contains(s, pat)
    ensures Contains(s, pat) ==> |Delete(s, pat)| <= |s| - |pat|
  {
    if Contains(s, pat) {
      DeleteShortensWhenPresent(s, pat);
    } else {
      ReplaceAbsent(s, pat, "");
    }
  }

  // ---------------------------------------------------------------------------
  // `s.split(sep, 1)` when the caller needs both halves

  /** The text before and after the first occurrence of `sep`; `None` when Python
      would raise (empty separator, or no occurrence so that `[1]` is out of range). */
  function SplitOnce(s: string, sep: string): (r: Option<(string, string)>)
    ensures sep != [] ==> (r.Some? <==> Contains(s, sep))
    ensures r.Some? ==> s == r.value.0 + sep + r.value.1
    ensures r.Some? ==> forall i: nat :: i < |r.value.0| ==> !OccursAt(s, sep, i)
    decreases |s|
  {
    if sep == [] then None
    else if IsPrefix(sep, s) then Some(([], s[|sep|..]))
    else if s == [] then None
    else
      match SplitOnce(s[1..], sep)
      case None => None
      case Some((a, b)) =>
        SplitOnceStep(s, sep, a, b);
        Some(([s[0]] + a, b))
  }

  /** The first occurrence in `s[1..]`, moved one place right, is the first one in `s`
      when `s` does not start with `sep`. */
  lemma {:induction false} SplitOnceStep(s: string, sep: string, a: string, b: string)
    requires s != [] && !IsPrefix(sep, s) && s[1..] == a + sep + b
    requires forall i: nat :: i < |a| ==> !OccursAt(s[1..], sep, i)
    ensures s == [s[0]] + a + sep + b
    ensures forall i: nat :: i < |a| + 1 ==> !OccursAt(s, sep, i)
  {
    assert s == [s[0]] + s[1..];
    forall i: nat | i < |a| + 1 ensures !OccursAt(s, sep, i) {
      if i == 0 {
        assert OccursAt(s, sep, 0) == IsPrefix(sep, s);
      } else {
        assert !OccursAt(s[1..], sep, i - 1);
        if i + |sep| <= |s| {
          assert s[1..][i - 1..i - 1 + |sep|] == s[i..i + |sep|];
        }
      }
    }
  }
}
