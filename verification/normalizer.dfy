/**
 * Line normalisation, the first half of `MettlerToledoSim.read`: the received
 * line is cleaned (first LF, first CR and first ESC removed, white space
 * trimmed, first `@` rewritten to `I4`), and the command ID is the first run
 * of non-white characters with its first `SI` rewritten to `S`.
 */
module Normalizer {
  import opened Wrappers
  import opened Text

  const ESC: char := '\U{1B}'

  /** `inp.replace('\n','').replace('\r','').replace('\x1B', '')` */
  function StripControls(line: string): string
  {
    ReplaceFirst(ReplaceFirst(ReplaceFirst(line, "\n", ""), "\r", ""), [ESC], "")
  }

  /**
   * Exactly one LF, one CR and one ESC are removed when present, the first of
   * each; every other character, and every further LF, CR or ESC, is kept.
   */
  lemma StripRemovesOneOfEach(line: string)
    ensures multiset(StripControls(line))
            == multiset(line) - Once(line, '\n') - Once(line, '\r') - Once(line, ESC)
  {
    var a := ReplaceFirst(line, "\n", "");
    var b := ReplaceFirst(a, "\r", "");
    RemoveFirstChar(line, '\n');
    RemoveFirstChar(a, '\r');
    RemoveFirstChar(b, ESC);
    RemoveFirstCharKeepsOthers(line, '\n', '\r');
    RemoveFirstCharKeepsOthers(line, '\n', ESC);
    RemoveFirstCharKeepsOthers(a, '\r', ESC);
  }

  /** Stripping adds no character: whatever is left was in the line. */
  lemma StripKeeps(line: string)
    ensures forall c :: c in StripControls(line) ==> c in line
  {
    StripRemovesOneOfEach(line);
    var r := StripControls(line);
    forall c | c in r ensures c in line {
      assert c in multiset(r);
    }
  }

  /** Lines 88-89 of the read handler: the cleaned input. */
  function Clean(line: string): string
  {
    ReplaceFirst(Trim(StripControls(line)), "@", "I4")
  }

  /** The cleaned input is empty exactly when the stripped line is all white space, and otherwise has non-white ends. */
  lemma CleanSpec(line: string)
    ensures Clean(line) == [] <==> AllWhite(StripControls(line))
    ensures var inp := Clean(line); inp != [] ==> !IsWhite(inp[0]) && !IsWhite(inp[|inp| - 1])
  {
    AliasKeepsEnds(StripControls(line));
  }

  /** Without an `@`, cleaning is exactly the stripped line, trimmed. */
  lemma CleanIsTrimmedStrip(line: string)
    requires '@' !in line
    ensures Clean(line) == Trim(StripControls(line))
  {
    var s := StripControls(line);
    StripKeeps(line);
    TrimStartSpec(s);
    TrimEndSpec(TrimStart(s));
    assert '@' !in Trim(s);
    CharAbsent(Trim(s), '@');
    ReplaceFirstSpec(Trim(s), "@", "I4");
  }

  lemma AliasKeepsEnds(s: string)
    ensures var r := ReplaceFirst(Trim(s), "@", "I4");
            (r == [] <==> AllWhite(s)) && (r != [] ==> !IsWhite(r[0]) && !IsWhite(r[|r| - 1]))
  {
    TrimEmptyIffAllWhite(s);
    TrimSpec(s);
    ReplaceKeepsEnds(Trim(s), "@", "I4");
  }

  /** Replacing one character by a non-white, non-empty text keeps a string's ends non-white and its emptiness. */
  lemma ReplaceKeepsEnds(t: string, pat: string, rep: string)
    requires |pat| == 1 && |rep| >= 1 && !IsWhite(rep[0]) && !IsWhite(rep[|rep| - 1])
    requires t == [] || (!IsWhite(t[0]) && !IsWhite(t[|t| - 1]))
    ensures var r := ReplaceFirst(t, pat, rep);
            (r == [] <==> t == []) && (r != [] ==> !IsWhite(r[0]) && !IsWhite(r[|r| - 1]))
  {
    var r := ReplaceFirst(t, pat, rep);
    ReplaceFirstSpec(t, pat, rep);
    if !Absent(t, pat) {
      var i :| 0 <= i <= |t| && OccursAt(t, pat, i);
      var k := FirstIndex(t, pat, i);
      assert r == t[..k] + rep + t[k + 1..];
      assert r[0] == if k == 0 then rep[0] else t[0];
      assert r[|r| - 1] == if k == |t| - 1 then rep[|rep| - 1] else t[|t| - 1];
    }
  }

  /**
   * Lines 96-105 of the read handler: the `^(\S+)` match on the cleaned input,
   * then the first `SI` in the matched word rewritten to `S`. `None` is the
   * "Command Not Valid" branch, taken exactly when the match fails.
   */
  function CommandId(inp: string): Option<string>
  {
    var word := FirstWord(inp);
    if word == [] then None else Some(ReplaceFirst(word, "SI", "S"))
  }

  /** The match fails exactly on an empty or white-led input; a command ID is a non-empty word without white space. */
  lemma CommandIdSpec(inp: string)
    ensures CommandId(inp).Some? <==> inp != [] && !IsWhite(inp[0])
    ensures CommandId(inp).Some? ==> CommandId(inp).value != [] && NoWhite(CommandId(inp).value)
  {
    var word := FirstWord(inp);
    FirstWordSpec(inp);
    if word != [] {
      ReplaceKeepsWhiteFree(word, "SI", "S");
    }
  }

  /** Rewriting `SI` to `S` keeps a non-empty word non-empty and free of white space. */
  lemma ReplaceKeepsWhiteFree(w: string, pat: string, rep: string)
    requires w != [] && |rep| >= 1 && |rep| <= |pat|
    requires NoWhite(w) && NoWhite(rep)
    ensures var r := ReplaceFirst(w, pat, rep);
            r != [] && NoWhite(r)
  {
    var r := ReplaceFirst(w, pat, rep);
    ReplaceFirstSpec(w, pat, rep);
    if !Absent(w, pat) {
      var i :| 0 <= i <= |w| && OccursAt(w, pat, i);
      var k := FirstIndex(w, pat, i);
      assert r == w[..k] + rep + w[k + |pat|..];
      NoWhiteConcat(w[..k], rep);
      NoWhiteConcat(w[..k] + rep, w[k + |pat|..]);
    }
  }

  /** The `^(\S+)` match cannot fail on a non-blank cleaned line: the "Command Not Valid" branch is unreachable. */
  lemma MatchNeverFails(line: string)
    requires Clean(line) != []
    ensures CommandId(Clean(line)).Some?
  {
    CleanSpec(line);
    CommandIdSpec(Clean(line));
  }

  /** A word that starts with `SI` has that prefix, and only it, rewritten to `S`. */
  lemma SIPrefixBecomesS(w: string)
    ensures CommandId("SI" + w) == Some("S" + FirstWord(w))
  {
    var word := FirstWord("SI" + w);
    assert FirstWord("I" + w) == ['I'] + FirstWord(w) by {
      assert ("I" + w)[0] == 'I' && !IsWhite('I');
      assert ("I" + w)[1..] == w;
    }
    assert word == ['S'] + FirstWord("I" + w) by {
      assert ("SI" + w)[0] == 'S' && !IsWhite('S');
      assert ("SI" + w)[1..] == "I" + w;
    }
    assert word == "SI" + FirstWord(w);
    assert FirstOccurrence(word, "SI", 0) && word[..0] == [] && word[2..] == FirstWord(w);
    ReplaceFirstSpec(word, "SI", "S");
  }
}
