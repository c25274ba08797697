/** `json_cleaner` of the chat service: the reply is turned into text, its whitespace
    collapsed, its backslashes deleted, and the result handed to a strict JSON parse; the
    cleaned text comes back when parsing fails. */
module ChatCleaner {
  import opened PyStrings
  import opened PyValues

  /** Line 26: `str(data)`. Text stays as it is; for anything else `show` stands for `str`. */
  function AsText(data: Value, show: Value -> string): string
  {
    if data.Str? then data.text else show(data)
  }

  /** Lines 29-35: whitespace collapsed, three replacements meant to tidy spaces, then every
      backslash deleted. */
  function CleanerText(s: string): string
  {
    Delete(Replace(Replace(Replace(Collapse(s), "\n", " "), "\r", " "), "  ", " "), "\\")
  }

  /** Lines 18-44: whatever the parser raises, the cleaned text comes back; nothing escapes. */
  function JsonCleaner(data: Value, show: Value -> string, loads: string -> ParseOutcome): (r: Cleaned)
    ensures r.Json? <==> loads(CleanerText(AsText(data, show))).Parsed?
    ensures r.Json? ==> r.value == loads(CleanerText(AsText(data, show))).value
    ensures r.Text? ==> r.text == CleanerText(AsText(data, show))
    ensures r.Text? ==> '\\' !in r.text && |r.text| <= |AsText(data, show)|
    ensures r.Text? ==> forall i :: 0 <= i < |r.text| && IsSpace(r.text[i]) ==> r.text[i] == ' '
    ensures data.Str? && r.Text? ==> r.text == CleanerText(data.text)
  {
    var text := CleanerText(AsText(data, show));
    CleanerTextShape(AsText(data, show));
    match loads(text)
    case Parsed(v) => Json(v)
    case Rejected => Text(text)
    case Raised(_) => Text(text)
  }

  /** After line 29 there is no newline, no carriage return and no double space, so lines 32-34
      change nothing: the cleaner is collapse-whitespace followed by deleting backslashes. */
  lemma {:induction false} SpaceRewritesAreNoOps(s: string)
    ensures CleanerText(s) == Delete(Collapse(s), "\\")
  {
    var c := Collapse(s);
    CollapseSingleSpaced(s);
    assert '\n' !in c && '\r' !in c by {
      forall i | 0 <= i < |c| ensures c[i] != '\n' && c[i] != '\r' {
        assert IsSpace(c[i]) ==> c[i] == ' ';
      }
    }
    ContainsChar(c, '\n');
    ReplaceAbsent(c, "\n", " ");
    ContainsChar(c, '\r');
    ReplaceAbsent(c, "\r", " ");
    SingleSpacedNoDoubleSpace(c);
    ReplaceAbsent(c, "  ", " ");
  }

  /** The cleaned text holds no backslash, its only whitespace is the plain space, and it is
      never longer than the input. */
  lemma {:induction false} CleanerTextShape(s: string)
    ensures '\\' !in CleanerText(s)
    ensures forall i :: 0 <= i < |CleanerText(s)| && IsSpace(CleanerText(s)[i]) ==> CleanerText(s)[i] == ' '
    ensures |CleanerText(s)| <= |s|
  {
    SpaceRewritesAreNoOps(s);
    var c := Collapse(s);
    var t := CleanerText(s);
    CollapseSingleSpaced(s);
    CollapseNotLonger(s);
    DeleteCharRemovesAll(c, '\\');
    DeleteShrinks(c, "\\");
    forall i | 0 <= i < |t| && IsSpace(t[i]) ensures t[i] == ' ' {
      assert t[i] in multiset(t);
      var j :| 0 <= j < |c| && c[j] == t[i];
    }
  }

  /** On a reply without backslashes the cleaner only collapses whitespace: the result is
      single-spaced, and cleaning it again changes nothing. */
  lemma {:induction false} CleanerOnPlainText(s: string)
    requires '\\' !in s
    ensures CleanerText(s) == Collapse(s)
    ensures SingleSpaced(CleanerText(s))
    ensures CleanerText(CleanerText(s)) == CleanerText(s)
  {
    SpaceRewritesAreNoOps(s);
    var c := Collapse(s);
    CollapseMembership(s, '\\');
    DeleteMissingChar(c, "\\", '\\');
    CollapseSingleSpaced(s);
    SpaceRewritesAreNoOps(c);
    CollapseFixesSingleSpaced(c);
    DeleteMissingChar(c, "\\", '\\');
  }

  /** Lines 29-35 edit only whitespace and backslashes: every other character of the input is
      kept, in order, so fences, "json" and "https://" all survive. */
  lemma {:induction false} OnlyWhitespaceAndBackslashesEdited(s: string)
    ensures NonSpace(CleanerText(s)) == Delete(NonSpace(s), "\\")
    ensures forall c :: !IsSpace(c) && c != '\\' ==> (c in CleanerText(s) <==> c in s)
  {
    SpaceRewritesAreNoOps(s);
    CollapseKeepsNonSpace(s);
    NonSpaceDeleteChar(Collapse(s), '\\');
    forall c | !IsSpace(c) && c != '\\' ensures c in CleanerText(s) <==> c in s {
      DeleteCharMembership(Collapse(s), '\\', c);
      CollapseMembership(s, c);
    }
  }

  /** A stretch of the reply without whitespace and without backslashes survives lines 29-35
      whole: the collapse keeps it inside one word, and deleting backslashes cannot cut it. */
  lemma {:induction false} SpaceFreePiecesKept(s: string, p: string)
    requires Contains(s, p)
    requires forall c :: c in p ==> !IsSpace(c) && c != '\\'
    ensures Contains(CleanerText(s), p)
  {
    SpaceRewritesAreNoOps(s);
    if p == [] {
      assert IsPrefix(p, CleanerText(s));
    } else {
      ContainsIffOccurs(s, p);
      var i: nat :| OccursAt(s, p, i);
      forall k | 0 <= k < |p| ensures !IsSpace(p[k]) && p[k] != '\\' {
        assert p[k] in p;
      }
      CollapseKeepsSpaceFree(s, p, i);
      DeleteKeepsPiece(Collapse(s), "\\", p, 0);
    }
  }
}
