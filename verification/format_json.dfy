/** `format_json` of the producer: a text is cleaned and parsed by a ladder of three
    strategies (strict JSON, Python literal, then a brace-and-quote repair), a nested
    "markdown" text is parsed alongside, and the value is dumped as JSON. */
module JsonFormat {
  import opened PyStrings
  import opened PyValues

  /** The prefix of every error report (line 103). */
  const ErrorPrefix: string := "Error formatting JSON: "

  /** Line 103: the report of an exception that reached the outer handler. */
  function ErrorText(message: string): string
  {
    ErrorPrefix + message
  }

  // ---------------------------------------------------------------------------
  // Line 61: newlines and "\_ns" markers deleted

  /** Line 61: every newline deleted, then every "\_ns". */
  function Prepared(text: string): string
  {
    Delete(Delete(text, "\n"), "\\_ns")
  }

  /** The prepared text holds no newline. */
  lemma {:induction false} PreparedHasNoNewline(text: string)
    ensures '\n' !in Prepared(text)
  {
    DeleteCharRemovesAll(text, '\n');
    DeleteKeepsAbsent(Delete(text, "\n"), "\\_ns", '\n');
  }

  // ---------------------------------------------------------------------------
  // Line 78: `re.sub(r'(\w+):', r'"\1":', data)`

  /** A character `\w` matches (ASCII letters, digits and the underscore). */
  predicate IsWordChar(c: char)
  {
    ('a' <= c <= 'z') || ('A' <= c <= 'Z') || ('0' <= c <= '9') || c == '_'
  }

  /** Length of the run of word characters `s` starts with. */
  function WordRun(s: string): (n: nat)
    ensures n <= |s|
    ensures forall i :: 0 <= i < n ==> IsWordChar(s[i])
    ensures n < |s| ==> !IsWordChar(s[n])
  {
    if s != [] && IsWordChar(s[0]) then 1 + WordRun(s[1..]) else 0
  }

  /** Line 78. Scanning left to right, a maximal run of word characters followed by a colon
      is wrapped in double quotes; a run followed by anything else is left alone, and the
      scan resumes after it (no shorter tail of the run can match either). */
  function QuoteKeys(s: string): string
    decreases |s|
  {
    if s == [] then []
    else
      var n := WordRun(s);
      if n > 0 && n < |s| && s[n] == ':' then "\"" + s[..n] + "\":" + QuoteKeys(s[n + 1..])
      else if n > 0 then s[..n] + QuoteKeys(s[n..])
      else [s[0]] + QuoteKeys(s[1..])
  }

  /** No word character stands right before a colon: no key is left unquoted. */
  ghost predicate NoBareKey(t: string)
  {
    forall i, j :: 0 <= i < j < |t| && j == i + 1 ==> !IsWordChar(t[i]) || t[j] != ':'
  }

  lemma {:induction false} NoBareKeyAppend(a: string, b: string)
    requires NoBareKey(a) && NoBareKey(b)
    requires a != [] && b != [] ==> !IsWordChar(a[|a| - 1]) || b[0] != ':'
    ensures NoBareKey(a + b)
  {
    var t := a + b;
    forall i, j | 0 <= i < j < |t| && j == i + 1
      ensures !IsWordChar(t[i]) || t[j] != ':'
    {
      if j < |a| {
        assert t[i] == a[i] && t[j] == a[j];
      } else if i >= |a| {
        assert t[i] == b[i - |a|] && t[j] == b[j - |a|];
      } else {
        assert t[i] == a[|a| - 1] && t[j] == b[0];
      }
    }
  }

  lemma {:induction false} NoBareKeyOfWord(w: string)
    requires forall i :: 0 <= i < |w| ==> IsWordChar(w[i])
    ensures NoBareKey(w)
  {
    forall i, j | 0 <= i < j < |w| && j == i + 1
      ensures !IsWordChar(w[i]) || w[j] != ':'
    {
      assert IsWordChar(w[j]);
    }
  }

  /** A quoted key followed by its colon has no bare key. */
  lemma {:induction false} QuotedKeyHasNoBareKey(w: string)
    requires forall i :: 0 <= i < |w| ==> IsWordChar(w[i])
    ensures NoBareKey("\"" + w + "\":")
  {
    var head := "\"" + w + "\":";
    forall i, j | 0 <= i < j < |head| && j == i + 1
      ensures !IsWordChar(head[i]) || head[j] != ':'
    {
      if j < |head| - 1 {
        assert head[j] == '"' || head[j] == w[j - 1];
      } else {
        assert head[i] == '"';
      }
    }
  }

  /** After line 78 every key is quoted: no word character is directly followed by a colon. */
  lemma {:induction false} QuoteKeysLeavesNoBareKey(s: string)
    ensures NoBareKey(QuoteKeys(s))
    decreases |s|
  {
    if s != [] {
      var n := WordRun(s);
      if n > 0 && n < |s| && s[n] == ':' {
        var rest := s[n + 1..];
        var head := "\"" + s[..n] + "\":";
        assert QuoteKeys(s) == head + QuoteKeys(rest);
        QuoteKeysLeavesNoBareKey(rest);
        QuotedKeyHasNoBareKey(s[..n]);
        assert head[|head| - 1] == ':';
        NoBareKeyAppend(head, QuoteKeys(rest));
      } else if n > 0 {
        var rest := s[n..];
        assert QuoteKeys(s) == s[..n] + QuoteKeys(rest);
        QuoteKeysLeavesNoBareKey(rest);
        NoBareKeyOfWord(s[..n]);
        if rest != [] {
          assert QuoteKeys(rest)[0] == rest[0];
        }
        NoBareKeyAppend(s[..n], QuoteKeys(rest));
      } else {
        assert QuoteKeys(s) == [s[0]] + QuoteKeys(s[1..]);
        QuoteKeysLeavesNoBareKey(s[1..]);
        NoBareKeyAppend([s[0]], QuoteKeys(s[1..]));
      }
    }
  }

  lemma {:induction false} NoBareKeySuffix(t: string, k: nat)
    requires NoBareKey(t) && k <= |t|
    ensures NoBareKey(t[k..])
  {
    var u := t[k..];
    forall i, j | 0 <= i < j < |u| && j == i + 1
      ensures !IsWordChar(u[i]) || u[j] != ':'
    {
      assert u[i] == t[i + k] && u[j] == t[j + k];
    }
  }

  /** A text with every key already quoted passes line 78 unchanged. */
  lemma {:induction false} QuoteKeysFixesQuoted(t: string)
    requires NoBareKey(t)
    ensures QuoteKeys(t) == t
    decreases |t|
  {
    if t != [] {
      var n := WordRun(t);
      assert n > 0 && n < |t| ==> t[n] != ':' by {
        if n > 0 && n < |t| {
          assert IsWordChar(t[n - 1]);
        }
      }
      if n > 0 {
        NoBareKeySuffix(t, n);
        QuoteKeysFixesQuoted(t[n..]);
        assert t == t[..n] + t[n..];
      } else {
        NoBareKeySuffix(t, 1);
        QuoteKeysFixesQuoted(t[1..]);
        assert t == [t[0]] + t[1..];
      }
    }
  }

  /** Line 78 is idempotent: quoting the keys twice is quoting them once. */
  lemma {:induction false} QuoteKeysIdempotent(s: string)
    ensures QuoteKeys(QuoteKeys(s)) == QuoteKeys(s)
  {
    QuoteKeysLeavesNoBareKey(s);
    QuoteKeysFixesQuoted(QuoteKeys(s));
  }

  lemma {:induction false} QuotesDeletedAround(w: string, q: string, rest: string)
    requires Delete(q, "\"") == Delete(rest, "\"")
    ensures Delete("\"" + w + "\":" + q, "\"") == Delete(w + ":" + rest, "\"")
  {
    assert "\"" + w + "\":" + q == "\"" + (w + ("\"" + (":" + q)));
    assert w + ":" + rest == w + (":" + rest);
    assert Delete("\"", "\"") == [] && Delete(":", "\"") == ":";
    DeleteCharAppend("\"", w + ("\"" + (":" + q)), '"');
    DeleteCharAppend(w, "\"" + (":" + q), '"');
    DeleteCharAppend("\"", ":" + q, '"');
    DeleteCharAppend(":", q, '"');
    DeleteCharAppend(w, ":" + rest, '"');
    DeleteCharAppend(":", rest, '"');
  }

  lemma {:induction false} QuotesDeletedAfter(a: string, q: string, rest: string)
    requires Delete(q, "\"") == Delete(rest, "\"")
    ensures Delete(a + q, "\"") == Delete(a + rest, "\"")
  {
    DeleteCharAppend(a, q, '"');
    DeleteCharAppend(a, rest, '"');
  }

  /** Line 78 only inserts double quotes: with every double quote deleted, the output is the
      input with every double quote deleted. */
  lemma {:induction false} QuoteKeysOnlyAddsQuotes(s: string)
    ensures Delete(QuoteKeys(s), "\"") == Delete(s, "\"")
    decreases |s|
  {
    if s != [] {
      var k, piece := QuoteKeysUnfold(s);
      QuoteKeysOnlyAddsQuotes(s[k..]);
      QuotesDeletedAfter(piece, QuoteKeys(s[k..]), s[k..]);
    }
  }

  /** Line 78 on a non-empty text starts with its first character or with a quote. */
  lemma {:induction false} QuoteKeysFirst(s: string)
    requires s != []
    ensures QuoteKeys(s) != []
    ensures QuoteKeys(s)[0] == s[0] || QuoteKeys(s)[0] == '"'
  {
    var n := WordRun(s);
    if n > 0 && n < |s| && s[n] == ':' {
      assert QuoteKeys(s) == "\"" + s[..n] + "\":" + QuoteKeys(s[n + 1..]);
    } else if n > 0 {
      assert QuoteKeys(s) == s[..n] + QuoteKeys(s[n..]);
    } else {
      assert QuoteKeys(s) == [s[0]] + QuoteKeys(s[1..]);
    }
  }

  /** One step of line 78: a piece produced from the front, then the rest of the text rewritten.
      When nothing is left, the piece ends with the text's last character. */
  lemma {:induction false} QuoteKeysUnfold(s: string) returns (k: nat, piece: string)
    requires s != []
    ensures 1 <= k <= |s| && QuoteKeys(s) == piece + QuoteKeys(s[k..])
    ensures k == |s| ==> piece != [] && piece[|piece| - 1] == s[|s| - 1]
    ensures Delete(piece + s[k..], "\"") == Delete(s, "\"")
  {
    var n := WordRun(s);
    if n > 0 && n < |s| && s[n] == ':' {
      k, piece := n + 1, "\"" + s[..n] + "\":";
      KeyPieceQuotes(s, n);
    } else if n > 0 {
      k, piece := n, s[..n];
      assert piece + s[k..] == s;
      assert k == |s| ==> piece == s;
    } else {
      k, piece := 1, [s[0]];
      assert piece + s[k..] == s;
    }
  }

  /** Quoting the key `s[..n]` of `s` adds nothing but double quotes. */
  lemma {:induction false} KeyPieceQuotes(s: string, n: nat)
    requires n < |s| && s[n] == ':'
    ensures Delete("\"" + s[..n] + "\":" + s[n + 1..], "\"") == Delete(s, "\"")
  {
    QuotesDeletedAround(s[..n], s[n + 1..], s[n + 1..]);
    assert s == s[..n] + ":" + s[n + 1..];
  }

  /** Line 78 keeps the last character of a non-empty text. */
  lemma {:induction false} QuoteKeysLast(s: string)
    requires s != []
    ensures QuoteKeys(s) != [] && QuoteKeys(s)[|QuoteKeys(s)| - 1] == s[|s| - 1]
    decreases |s|
  {
    var k, piece := QuoteKeysUnfold(s);
    var rest := s[k..];
    if k < |s| {
      QuoteKeysLast(rest);
      assert rest[|rest| - 1] == s[|s| - 1];
      LastOfAppend(piece, QuoteKeys(rest));
    } else {
      assert rest == [];
      assert QuoteKeys(rest) == [];
      assert piece + QuoteKeys(rest) == piece;
    }
  }

  /** The last character of a concatenation with a non-empty tail is the tail's last. */
  lemma {:induction false} LastOfAppend(a: string, b: string)
    requires b != []
    ensures (a + b)[|a + b| - 1] == b[|b| - 1]
  {
  }

  /** Line 78 keeps the last character, and the first one unless a key starts there. */
  lemma {:induction false} QuoteKeysEnds(s: string)
    requires s != []
    ensures QuoteKeys(s) != []
    ensures QuoteKeys(s)[|QuoteKeys(s)| - 1] == s[|s| - 1]
    ensures QuoteKeys(s)[0] == s[0] || QuoteKeys(s)[0] == '"'
  {
    QuoteKeysFirst(s);
    QuoteKeysLast(s);
  }

  /** Line 78 wraps a key in quotes: a maximal run of word characters followed by a colon
      becomes the quoted run and the colon, and the text on either side is rewritten on its
      own. */
  lemma {:induction false} QuoteKeysWrapsKey(a: string, w: string, b: string)
    requires a == [] || !IsWordChar(a[|a| - 1])
    requires w != [] && forall i :: 0 <= i < |w| ==> IsWordChar(w[i])
    ensures QuoteKeys(a + w + ":" + b) == QuoteKeys(a) + "\"" + w + "\":" + QuoteKeys(b)
  {
    var key := w + ":" + b;
    assert a + w + ":" + b == a + key;
    QuoteKeysSplit(a, key);
    QuoteKeysKeyFirst(w, b);
    KeyJoined(QuoteKeys(a + key), QuoteKeys(a), QuoteKeys(key), w, QuoteKeys(b));
  }

  /** Rewritten text before a rewritten key: the quoted key follows the text before it. */
  lemma {:induction false} KeyJoined(whole: string, before: string, quoted: string, w: string, after: string)
    requires whole == before + quoted && quoted == "\"" + w + "\":" + after
    ensures whole == before + "\"" + w + "\":" + after
  {
  }

  /** A key at the very front is quoted, and the rest is rewritten after it. */
  lemma {:induction false} QuoteKeysKeyFirst(w: string, b: string)
    requires w != [] && forall i :: 0 <= i < |w| ==> IsWordChar(w[i])
    ensures QuoteKeys(w + ":" + b) == "\"" + w + "\":" + QuoteKeys(b)
  {
    var s := w + ":" + b;
    WordRunOfWord(w, ":" + b);
    assert s == w + (":" + b);
    assert s[..|w|] == w && s[|w|] == ':' && s[|w| + 1..] == b;
  }

  /** The run at the front of a word followed by a non-word character is that word. */
  lemma {:induction false} WordRunOfWord(w: string, y: string)
    requires forall i :: 0 <= i < |w| ==> IsWordChar(w[i])
    requires y == [] || !IsWordChar(y[0])
    ensures WordRun(w + y) == |w|
    decreases |w|
  {
    if w != [] {
      assert IsWordChar((w + y)[0]);
      assert (w + y)[1..] == w[1..] + y;
      WordRunOfWord(w[1..], y);
    } else {
      assert w + y == y;
    }
  }

  /** A text ending in a non-word character is rewritten on its own: no key of line 78 can
      reach across its end. */
  lemma {:induction false} QuoteKeysSplit(a: string, x: string)
    requires a == [] || !IsWordChar(a[|a| - 1])
    ensures QuoteKeys(a + x) == QuoteKeys(a) + QuoteKeys(x)
    decreases |a|
  {
    if a == [] {
      assert a + x == x;
      assert QuoteKeys(a) == [];
    } else {
      var k, piece := QuoteKeysStepAppend(a, x);
      var rest := a[k..];
      assert rest == [] || rest[|rest| - 1] == a[|a| - 1];
      QuoteKeysSplit(rest, x);
      PieceThenRest(QuoteKeys(a + x), QuoteKeys(a), QuoteKeys(x), piece, QuoteKeys(rest), QuoteKeys(rest + x));
    }
  }

  /** A common first piece before rests that split the same way gives wholes that split the
      same way. */
  lemma {:induction false} PieceThenRest(whole: string, left: string, right: string, piece: string,
                                         rest: string, restWhole: string)
    requires whole == piece + restWhole && left == piece + rest && restWhole == rest + right
    ensures whole == left + right
  {
  }

  /** One step of line 78 on a text ending in a non-word character takes the same piece
      whatever follows it. */
  lemma {:induction false} QuoteKeysStepAppend(a: string, x: string) returns (k: nat, piece: string)
    requires a != [] && !IsWordChar(a[|a| - 1])
    ensures 1 <= k <= |a|
    ensures QuoteKeys(a) == piece + QuoteKeys(a[k..])
    ensures QuoteKeys(a + x) == piece + QuoteKeys(a[k..] + x)
  {
    var s := a + x;
    var n := WordRunAppend(a, x);
    AppendSlices(a, x, n);
    if n > 0 && a[n] == ':' {
      k, piece := n + 1, "\"" + a[..n] + "\":";
    } else if n > 0 {
      k, piece := n, a[..n];
    } else {
      k, piece := 1, [a[0]];
    }
    AppendSlices(a, x, k);
  }

  /** Cutting a concatenation within its first part. */
  lemma {:induction false} AppendSlices(a: string, x: string, k: nat)
    requires k <= |a|
    ensures (a + x)[..k] == a[..k] && (a + x)[k..] == a[k..] + x
    ensures k < |a| ==> (a + x)[k] == a[k]
  {
    assert (a + x)[k..] == a[k..] + x by {
      forall i | 0 <= i < |a| - k + |x| ensures (a + x)[k..][i] == (a[k..] + x)[i] {
        if i < |a| - k {
          assert (a + x)[k..][i] == a[k + i];
        } else {
          assert (a + x)[k..][i] == x[i - (|a| - k)];
        }
      }
    }
  }

  /** The word run at the front of a text ending in a non-word character stops inside it,
      whatever follows. */
  lemma {:induction false} WordRunAppend(a: string, x: string) returns (n: nat)
    requires a != [] && !IsWordChar(a[|a| - 1])
    ensures n == WordRun(a) && n == WordRun(a + x) && n < |a|
    decreases |a|
  {
    if IsWordChar(a[0]) {
      assert |a| >= 2;
      assert (a + x)[1..] == a[1..] + x;
      var m := WordRunAppend(a[1..], x);
      n := m + 1;
    } else {
      n := 0;
    }
  }

  // ---------------------------------------------------------------------------
  // Lines 64-81: the parsing ladder

  /** The braces line 75 strips. */
  const Braces: set<char> := {'{', '}'}

  /** Lines 75-78: outer braces stripped, then keys quoted. */
  function Repaired(d: string): string
  {
    QuoteKeys(Strip(d, Braces))
  }

  /** The repaired text neither starts nor ends with a brace, so the braces line 79 puts
      around it are the only outer ones. */
  lemma {:induction false} RepairedShape(d: string)
    ensures var q := Repaired(d); q == [] || (q[0] !in Braces && q[|q| - 1] !in Braces)
  {
    var t := Strip(d, Braces);
    if t != [] {
      QuotedEndsOutsideBraces(t);
    }
  }

  /** Quoting keys keeps a text's ends out of the braces when they were out already. */
  lemma {:induction false} QuotedEndsOutsideBraces(t: string)
    requires t != [] && t[0] !in Braces && t[|t| - 1] !in Braces
    ensures QuoteKeys(t) != [] && QuoteKeys(t)[0] !in Braces && QuoteKeys(t)[|QuoteKeys(t)| - 1] !in Braces
  {
    QuoteKeysEnds(t);
    assert '"' !in Braces;
  }

  /** Where the ladder ends: a value, the repaired text it gave up on (line 81), or the
      message of an exception that escapes to the outer handler (line 101). */
  datatype Ladder = Got(value: Value) | GaveUp(text: string) | Failed(message: string)

  /** Lines 64-81 on the prepared text `d`: `json.loads`, then `ast.literal_eval` when the
      former raises `JSONDecodeError`, then the repair when the latter raises `SyntaxError` or
      `ValueError`. Any other exception from the first two escapes; anything the repaired
      parse raises is swallowed and the repaired text is returned. */
  function ParseLadder(d: string, loads: string -> ParseOutcome, literal: string -> ParseOutcome): (r: Ladder)
    ensures r.Got? && loads(d).Parsed? ==> r.value == loads(d).value
    ensures r.Got? && !loads(d).Parsed? ==>
              loads(d).Rejected? && (literal(d).Parsed? ==> r.value == literal(d).value)
    ensures r.GaveUp? <==> loads(d).Rejected? && literal(d).Rejected? && !loads("{" + Repaired(d) + "}").Parsed?
    ensures r.GaveUp? ==> r.text == Repaired(d)
    ensures r.Failed? <==> loads(d).Raised? || (loads(d).Rejected? && literal(d).Raised?)
  {
    match loads(d)
    case Parsed(v) => Got(v)
    case Raised(m) => Failed(m)
    case Rejected =>
      match literal(d)
      case Parsed(v) => Got(v)
      case Raised(m) => Failed(m)
      case Rejected =>
        var q := Repaired(d);
        match loads("{" + q + "}")
        case Parsed(v) => Got(v)
        case Rejected => GaveUp(q)
        case Raised(_) => GaveUp(q)
  }

  /** `ast.literal_eval` is consulted only after `json.loads` has rejected the text: when the
      first parse accepts it, or raises anything else, the ladder does not depend on it. */
  lemma {:induction false} LiteralOnlyAfterJsonRejects(d: string, loads: string -> ParseOutcome,
                                                       literal1: string -> ParseOutcome,
                                                       literal2: string -> ParseOutcome)
    requires !loads(d).Rejected?
    ensures ParseLadder(d, loads, literal1) == ParseLadder(d, loads, literal2)
  {
  }

  /** The repair runs only when both parsers reject the text, and what it parses is the
      repaired text in a single pair of braces. */
  lemma {:induction false} RepairOnlyAfterBothReject(d: string, loads: string -> ParseOutcome, literal: string -> ParseOutcome)
    requires loads(d).Rejected? && literal(d).Rejected?
    ensures var r := ParseLadder(d, loads, literal);
            (r.Got? <==> loads("{" + Repaired(d) + "}").Parsed?)
            && (r.Got? ==> r.value == loads("{" + Repaired(d) + "}").value)
            && (!r.Got? ==> r == GaveUp(Repaired(d)))
  {
  }

  // ---------------------------------------------------------------------------
  // Lines 87-93: the nested "markdown" text

  const MarkdownKey: Key := StrKey("markdown")
  const MarkdownParsedKey: Key := StrKey("markdown_parsed")

  /** Lines 87-93: a dictionary holding a "markdown" entry gets a "markdown_parsed" entry when
      that text parses as JSON; otherwise (not text, not JSON, or any exception) nothing
      changes. */
  function WithMarkdown(v: Value, loads: string -> ParseOutcome): (r: Value)
    ensures r.Dict? <==> v.Dict?
    ensures r != v ==>
              && v.Dict? && MarkdownKey in v.entries && v.entries[MarkdownKey].Str?
              && loads(v.entries[MarkdownKey].text).Parsed?
              && r.entries == v.entries[MarkdownParsedKey := loads(v.entries[MarkdownKey].text).value]
    ensures v.Dict? && MarkdownKey in v.entries && v.entries[MarkdownKey].Str?
            && loads(v.entries[MarkdownKey].text).Parsed? ==>
              r.Dict? && MarkdownParsedKey in r.entries && r.entries[MarkdownParsedKey] == loads(v.entries[MarkdownKey].text).value
  {
    if v.Dict? && MarkdownKey in v.entries && v.entries[MarkdownKey].Str? then
      match loads(v.entries[MarkdownKey].text)
      case Parsed(nested) => Dict(v.entries[MarkdownParsedKey := nested])
      case Rejected => v
      case Raised(_) => v
    else v
  }

  /** The markdown step keeps every entry but "markdown_parsed", and the "markdown" entry
      itself. */
  lemma {:induction false} WithMarkdownKeepsEntries(v: Value, loads: string -> ParseOutcome, k: Key)
    requires v.Dict? && k in v.entries && k != MarkdownParsedKey
    ensures k in WithMarkdown(v, loads).entries && WithMarkdown(v, loads).entries[k] == v.entries[k]
  {
  }

  // ---------------------------------------------------------------------------
  // Lines 47-103

  /** Lines 57-103. Text goes through line 61 and the ladder; any other value is used as it is.
      The value is then given its parsed markdown and dumped; an exception that reaches the
      outer handler becomes an error report. */
  function FormatJson(data: Value, loads: string -> ParseOutcome, literal: string -> ParseOutcome,
                      dumps: Value -> DumpOutcome): (r: string)
    ensures !data.Str? ==>
              r == (match dumps(WithMarkdown(data, loads))
                    case Dumped(t) => t
                    case DumpRaised(m) => ErrorText(m))
    ensures data.Str? && ParseLadder(Prepared(data.text), loads, literal).Failed? ==>
              r == ErrorText(ParseLadder(Prepared(data.text), loads, literal).message)
    ensures data.Str? && ParseLadder(Prepared(data.text), loads, literal).GaveUp? ==>
              r == Repaired(Prepared(data.text))
    ensures data.Str? && ParseLadder(Prepared(data.text), loads, literal).Got? ==>
              r == (match dumps(WithMarkdown(ParseLadder(Prepared(data.text), loads, literal).value, loads))
                    case Dumped(t) => t
                    case DumpRaised(m) => ErrorText(m))
  {
    var ladder := if data.Str? then ParseLadder(Prepared(data.text), loads, literal) else Got(data);
    match ladder
    case Failed(m) => ErrorText(m)
    case GaveUp(q) => q
    case Got(v) =>
      match dumps(WithMarkdown(v, loads))
      case Dumped(t) => t
      case DumpRaised(m) => ErrorText(m)
  }

  /** When the ladder gives up, the text returned at line 81 holds no newline, has every key
      quoted and neither starts nor ends with a brace. */
  lemma {:induction false} GaveUpText(text: string, loads: string -> ParseOutcome,
                                      literal: string -> ParseOutcome, dumps: Value -> DumpOutcome)
    requires ParseLadder(Prepared(text), loads, literal).GaveUp?
    ensures var r := FormatJson(Str(text), loads, literal, dumps);
            && '\n' !in r && NoBareKey(r)
            && (r == [] || (r[0] !in Braces && r[|r| - 1] !in Braces))
  {
    var d := Prepared(text);
    var t := Strip(d, Braces);
    PreparedHasNoNewline(text);
    StripIsSlice(d, Braces);
    assert '\n' !in t;
    QuoteKeysOnlyAddsQuotes(t);
    DeleteCharMembership(QuoteKeys(t), '"', '\n');
    DeleteCharMembership(t, '"', '\n');
    QuoteKeysLeavesNoBareKey(t);
    RepairedShape(d);
  }

  /** A text that `json.loads` accepts after line 61 is dumped from the value it parsed to;
      `ast.literal_eval` plays no part. */
  lemma {:induction false} JsonFirst(text: string, loads: string -> ParseOutcome,
                                     literal: string -> ParseOutcome, dumps: Value -> DumpOutcome)
    requires loads(Prepared(text)).Parsed?
    ensures var v := WithMarkdown(loads(Prepared(text)).value, loads);
            FormatJson(Str(text), loads, literal, dumps)
              == (match dumps(v) case Dumped(t) => t case DumpRaised(m) => ErrorText(m))
  {
  }

  /** Line 68: when `json.loads` rejects the text and `ast.literal_eval` gives a value, that value
      is dumped after the markdown step; when the dump raises (a set, say), the error is
      reported. */
  lemma {:induction false} LiteralRoute(text: string, loads: string -> ParseOutcome,
                                        literal: string -> ParseOutcome, dumps: Value -> DumpOutcome)
    requires loads(Prepared(text)).Rejected? && literal(Prepared(text)).Parsed?
    ensures var v := WithMarkdown(literal(Prepared(text)).value, loads);
            FormatJson(Str(text), loads, literal, dumps)
              == (match dumps(v) case Dumped(t) => t case DumpRaised(m) => ErrorText(m))
  {
  }

  /** Line 79: when both parsers reject the text and the braced repaired text parses, the
      repaired value is dumped after the markdown step, or the dump's error is reported. */
  lemma {:induction false} RepairRoute(text: string, loads: string -> ParseOutcome,
                                       literal: string -> ParseOutcome, dumps: Value -> DumpOutcome)
    requires loads(Prepared(text)).Rejected? && literal(Prepared(text)).Rejected?
    requires loads("{" + Repaired(Prepared(text)) + "}").Parsed?
    ensures var v := WithMarkdown(loads("{" + Repaired(Prepared(text)) + "}").value, loads);
            FormatJson(Str(text), loads, literal, dumps)
              == (match dumps(v) case Dumped(t) => t case DumpRaised(m) => ErrorText(m))
  {
    var d := Prepared(text);
    assert ParseLadder(d, loads, literal) == Got(loads("{" + Repaired(d) + "}").value);
  }

  /** Line 61 deletes "\_ns" in one pass, so a marker split by another can come back together:
      "\_\_nsns" becomes "\_ns". */
  lemma {:induction false} MarkerCanReappear(s: string)
    requires s == "\\_\\_nsns"
    ensures Delete(s, "\\_ns") == "\\_ns"
  {
    assert s[..4] == "\\_\\_" && s[1..] == "_\\_nsns";
    DeleteMiss(s, "\\_ns");
    assert s[1..][..4] == "_\\_n" && s[1..][1..] == "\\_nsns";
    DeleteMiss(s[1..], "\\_ns");
    assert s[2..][..4] == "\\_ns" && s[2..][4..] == "ns";
    DeleteHit(s[2..], "\\_ns");
    assert Delete("ns", "\\_ns") == "ns";
  }
}
