/** The case-split formatter: turns the replacement text that the language
    server proposes for a destructured expression into the text inserted
    into the document. */
module CaseSplitFormat {
  import opened Strings

  /** The stub the server emits for each branch still to be written. */
  const Placeholder: string := "(??)"
  /** What each stub becomes: the target language's "not implemented yet". */
  const FailwithCase: string := "failwith \"<case>\""

  /** JavaScript's `\s`: the WhiteSpace and LineTerminator code points of
      ECMAScript (tab, vertical tab, form feed, BOM, the Zs space separators,
      line feed, carriage return, line and paragraph separators). */
  predicate IsJsWhitespace(c: char) {
    c == '\t' || c == '\n' || c == '\U{B}' || c == '\U{C}' || c == '\r' || c == ' '
    || c == '\U{A0}' || c == '\U{1680}' || ('\U{2000}' <= c <= '\U{200A}')
    || c == '\U{2028}' || c == '\U{2029}' || c == '\U{202F}' || c == '\U{205F}'
    || c == '\U{3000}' || c == '\U{FEFF}'
  }

  /** The match of `^\s*` on the text of the selection's line; the match
      always exists (it may be empty), so the fallback to "" never applies. */
  function Indentation(line: string): (ind: string)
    ensures StartsWith(line, ind)
    ensures forall k :: 0 <= k < |ind| ==> IsJsWhitespace(ind[k])
    ensures |ind| < |line| ==> !IsJsWhitespace(line[|ind|])
    decreases |line|
  {
    if |line| > 0 && IsJsWhitespace(line[0]) then [line[0]] + Indentation(line[1..]) else []
  }

  /** `content.replace(/\n$/, "")`: drops one final line feed, nothing else. */
  function TrimTrailingWhitespace(content: string): (r: string)
    ensures EndsWith(content, "\n") ==> r + "\n" == content
    ensures !EndsWith(content, "\n") ==> r == content
  {
    ReplaceAtEnd(content, "\n", "")
  }

  /** `content.replace(/^\(|\n\)$/g, "")` as the regex engine runs it: from
      index `i` on, try `^\(` (index 0 only) and then `\n\)$` (the last two
      characters only) at each index, dropping what matches. */
  function ScanOuterParens(s: string, i: nat): string
    requires i <= |s|
    decreases |s| - i
  {
    if i == |s| then []
    else if i == 0 && s[0] == '(' then ScanOuterParens(s, 1)
    else if s[i..] == "\n)" then []
    else [s[i]] + ScanOuterParens(s, i + 1)
  }

  /** Past the leading `(`, the scan keeps everything up to a final `\n)`. */
  lemma {:induction false} ScanOuterParensTail(s: string, i: nat)
    requires i <= |s|
    requires i > 0 || |s| == 0 || s[0] != '('
    ensures ScanOuterParens(s, i)
      == if EndsWith(s, "\n)") && i <= |s| - 2 then s[i..|s| - 2] else s[i..]
    decreases |s| - i
  {
    if i < |s| && s[i..] != "\n)" {
      ScanOuterParensTail(s, i + 1);
      if EndsWith(s, "\n)") && i <= |s| - 2 {
        assert i != |s| - 2;
      }
    }
  }

  function RemoveOuterParens(content: string): (r: string)
    ensures content
      == (if StartsWith(content, "(") then "(" else "") + r
       + (if EndsWith(content, "\n)") then "\n)" else "")
  {
    if StartsWith(content, "(") then
      ScanOuterParensTail(content, 1);
      ScanOuterParens(content, 0)
    else
      ScanOuterParensTail(content, 0);
      ScanOuterParens(content, 0)
  }

  /** `[A-Za-z0-9_]`, the characters on which `\b` turns. */
  predicate IsWordChar(c: char) {
    ('A' <= c <= 'Z') || ('a' <= c <= 'z') || ('0' <= c <= '9') || c == '_'
  }

  /** `/^\bswitch\b/.test(s)`: `switch` at the start, then end of input or a
      non-word character. (The `g` flag is harmless: a regex literal is a new
      object, with `lastIndex` 0, on every call.) */
  predicate StartsWithSwitchWord(s: string) {
    StartsWith(s, "switch") && (|s| == 6 || !IsWordChar(s[6]))
  }

  /** One pass over `s`: every `|` becomes `ind + "  |"`, a `}` that is the
      last character becomes `ind + "}"`, everything else is copied. */
  function IndentedSwitch(ind: string, s: string): string
    decreases |s|
  {
    if |s| == 0 then []
    else if s == "}" then ind + "}"
    else (if s[0] == '|' then ind + "  |" else [s[0]]) + IndentedSwitch(ind, s[1..])
  }

  /** With a one-character pattern the rewrite goes character by character. */
  lemma OneCharReplaceAllHead(s: string, c: char, rep: string)
    requires |s| > 0
    ensures ReplaceAll(s, [c], rep) == (if s[0] == c then rep else [s[0]]) + ReplaceAll(s[1..], [c], rep)
  {
    assert StartsWith(s, [c]) <==> s[0] == c;
  }

  /** An end-anchored replacement does not see a prefix that lies before the
      characters it can match. */
  lemma ReplaceAtEndPrepend(head: string, t: string, suf: string, rep: string)
    requires |suf| <= |t|
    ensures ReplaceAtEnd(head + t, suf, rep) == head + ReplaceAtEnd(t, suf, rep)
  {
    var u := head + t;
    assert u[|u| - |suf|..] == t[|t| - |suf|..];
    if EndsWith(t, suf) {
      assert u[..|u| - |suf|] == head + t[..|t| - |suf|];
    }
  }

  /** The two chained replacements of the source compute the one pass above. */
  lemma {:induction false} TwoReplacementsAreIndentedSwitch(ind: string, s: string)
    ensures ReplaceAtEnd(ReplaceAll(s, "|", ind + "  |"), "}", ind + "}") == IndentedSwitch(ind, s)
    decreases |s|
  {
    var rep := ind + "  |";
    if |s| > 0 {
      OneCharReplaceAllHead(s, '|', rep);
      var head := if s[0] == '|' then rep else [s[0]];
      var t := ReplaceAll(s[1..], "|", rep);
      if |s| == 1 {
        assert s == [s[0]];
        assert t == [];
      } else {
        TwoReplacementsAreIndentedSwitch(ind, s[1..]);
        OneCharReplaceAllHead(s[1..], '|', rep);
        ReplaceAtEndPrepend(head, t, "}", ind + "}");
      }
    }
  }

  /** `indentSwitchExpression`: when the content starts with the word
      `switch`, `content.replace(/\|/g, ind + "  |").replace(/}$/g, ind + "}")`;
      otherwise the content itself. */
  function IndentSwitchExpression(ind: string, content: string): (r: string)
    requires '$' !in ind
    ensures !StartsWithSwitchWord(content) ==> r == content
    ensures StartsWithSwitchWord(content) ==> r == IndentedSwitch(ind, content)
  {
    if !StartsWithSwitchWord(content) then content
    else
      TwoReplacementsAreIndentedSwitch(ind, content);
      ReplaceAtEnd(ReplaceAll(content, "|", ind + "  |"), "}", ind + "}")
  }

  /** `content.replace(/\(\?\?\)/g, 'failwith "<case>"')`. */
  function FillPlaceholders(content: string): (r: string)
    ensures !Contains(r, Placeholder)
    ensures r == content <==> !Contains(content, Placeholder)
  {
    ReplaceAllRemovesPattern(content, Placeholder, FailwithCase);
    if !Contains(content, Placeholder) then
      ReplaceAllAbsent(content, Placeholder, FailwithCase);
      ReplaceAll(content, Placeholder, FailwithCase)
    else
      ReplaceAll(content, Placeholder, FailwithCase)
  }

  /** Each stub, taken from the left, becomes `failwith "<case>"`; the text
      before it is kept and the rest is filled the same way. Together with the
      case without stubs this fixes the result completely. */
  lemma FillPlaceholdersFirstStub(content: string, i: nat)
    requires OccursAt(content, Placeholder, i)
    requires forall j: nat :: j < i ==> !OccursAt(content, Placeholder, j)
    ensures FillPlaceholders(content)
         == content[..i] + FailwithCase + FillPlaceholders(content[i + |Placeholder|..])
  {
    ReplaceAllFirstOccurrence(content, Placeholder, FailwithCase, i);
  }

  /** `switch (x) { | A => (??) }` becomes
      `switch (x) { | A => failwith "<case>" }`. */
  lemma FillPlaceholdersExample()
    ensures FillPlaceholders("switch (x) { | A => " + Placeholder + " }")
         == "switch (x) { | A => " + FailwithCase + " }"
  {
    var pre, post := "switch (x) { | A => ", " }";
    var s := pre + Placeholder + post;
    assert OccursAt(s, Placeholder, 20) by {
      assert s[20..24] == Placeholder;
    }
    forall j: nat | j < 20 ensures !OccursAt(s, Placeholder, j) {
      assert s[j] == pre[j];
      assert s[j] != '(' || s[j + 1] != '?';
    }
    FillPlaceholdersFirstStub(s, 20);
    assert s[..20] == pre && s[24..] == post;
    assert FillPlaceholders(post) == post by {
      assert forall i: nat :: !OccursAt(post, Placeholder, i);
      ReplaceAllAbsent(post, Placeholder, FailwithCase);
    }
  }

  /** Filling the stubs twice is filling them once. */
  lemma FillPlaceholdersIdempotent(content: string)
    ensures FillPlaceholders(FillPlaceholders(content)) == FillPlaceholders(content)
  {
  }

  /** `caseSplit.format`: the four steps in their fixed order, indented by the
      leading whitespace of the selection's line. */
  function Format(line: string, content: string): (r: string)
    ensures !Contains(r, Placeholder)
  {
    var ind := Indentation(line);
    assert '$' !in ind by {
      assert !IsJsWhitespace('$');
    }
    FillPlaceholders(IndentSwitchExpression(ind, RemoveOuterParens(TrimTrailingWhitespace(content))))
  }

  /** `s` with every JavaScript whitespace character taken out. */
  function NonWhitespace(s: string): string
    decreases |s|
  {
    if |s| == 0 then [] else (if IsJsWhitespace(s[0]) then [] else [s[0]]) + NonWhitespace(s[1..])
  }

  lemma {:induction false} NonWhitespaceAppend(a: string, b: string)
    ensures NonWhitespace(a + b) == NonWhitespace(a) + NonWhitespace(b)
    decreases |a|
  {
    if |a| == 0 {
      assert a + b == b;
    } else if |b| == 0 {
      assert a + b == a;
    } else {
      assert (a + b)[0] == a[0];
      assert (a + b)[1..] == a[1..] + b;
      NonWhitespaceAppend(a[1..], b);
    }
  }

  lemma {:induction false} NonWhitespaceOfWhitespace(w: string)
    requires forall k :: 0 <= k < |w| ==> IsJsWhitespace(w[k])
    ensures NonWhitespace(w) == []
    decreases |w|
  {
    if |w| > 0 {
      NonWhitespaceOfWhitespace(w[1..]);
    }
  }

  /** With a whitespace indentation, the switch rewrite only inserts
      whitespace: every other character survives, in its order. */
  lemma {:induction false} IndentedSwitchInsertsOnlyWhitespace(ind: string, s: string)
    requires forall k :: 0 <= k < |ind| ==> IsJsWhitespace(ind[k])
    ensures NonWhitespace(IndentedSwitch(ind, s)) == NonWhitespace(s)
    decreases |s|
  {
    NonWhitespaceOfWhitespace(ind);
    if s == "}" {
      NonWhitespaceAppend(ind, "}");
    } else if |s| > 0 {
      IndentedSwitchInsertsOnlyWhitespace(ind, s[1..]);
      var head := if s[0] == '|' then ind + "  |" else [s[0]];
      NonWhitespaceAppend(head, IndentedSwitch(ind, s[1..]));
      if s[0] == '|' {
        NonWhitespaceAppend(ind, "  |");
        NonWhitespaceOfWhitespace("  ");
        NonWhitespaceAppend("  ", "|");
      }
    }
  }

  /** Number of occurrences of `c` in `s`. */
  function CountChar(s: string, c: char): nat
    decreases |s|
  {
    if |s| == 0 then 0 else (if s[0] == c then 1 else 0) + CountChar(s[1..], c)
  }

  lemma MulSucc(n: nat, k: nat)
    ensures (n + 1) * k == n * k + k
  {
  }

  /** Each `|` grows by the indentation and two spaces, a final `}` by the
      indentation; nothing else changes length. */
  lemma {:induction false} IndentedSwitchLength(ind: string, s: string)
    ensures |IndentedSwitch(ind, s)|
      == |s| + CountChar(s, '|') * (|ind| + 2) + (if EndsWith(s, "}") then |ind| else 0)
    decreases |s|
  {
    var k := |ind| + 2;
    if s == "}" {
      assert CountChar(s, '|') == 0 by { assert s[1..] == []; }
    } else if |s| > 0 {
      var t := s[1..];
      IndentedSwitchLength(ind, t);
      var n := CountChar(t, '|');
      var e := if EndsWith(t, "}") then |ind| else 0;
      assert |IndentedSwitch(ind, t)| == |t| + n * k + e;
      var head := if s[0] == '|' then ind + "  |" else [s[0]];
      assert IndentedSwitch(ind, s) == head + IndentedSwitch(ind, t);
      assert EndsWith(s, "}") <==> EndsWith(t, "}") by {
        if |s| > 1 {
          assert s[|s| - 1..] == t[|t| - 1..];
        } else {
          assert s == [s[0]];
        }
      }
      if s[0] == '|' {
        assert CountChar(s, '|') == n + 1;
        MulSucc(n, k);
      } else {
        assert CountChar(s, '|') == n;
      }
    }
  }

  /** Text that is already in final form passes through the formatter
      untouched: no final line feed, no outer parentheses, no `switch`, no
      placeholder. */
  lemma FormatNormalizedIsIdentity(line: string, content: string)
    requires !EndsWith(content, "\n") && !StartsWith(content, "(") && !EndsWith(content, "\n)")
    requires !StartsWithSwitchWord(content) && !Contains(content, Placeholder)
    ensures Format(line, content) == content
  {
    assert RemoveOuterParens(content) == content;
  }

  /** Unless the content is a `switch`, the selection's line has no effect. */
  lemma FormatIgnoresLineUnlessSwitch(line1: string, line2: string, content: string)
    requires !StartsWithSwitchWord(RemoveOuterParens(TrimTrailingWhitespace(content)))
    ensures Format(line1, content) == Format(line2, content)
  {
  }

  /** Stripping outer parentheses is not idempotent: a second `(` survives
      the first pass and is removed by the second. */
  lemma RemoveOuterParensTwice()
    ensures RemoveOuterParens("((x") == "(x"
    ensures RemoveOuterParens(RemoveOuterParens("((x")) == "x"
  {
    assert ScanOuterParens("((x", 2) == "x";
  }

  lemma SwitchWordExamples()
    ensures !StartsWithSwitchWord("switcher")
    ensures StartsWithSwitchWord("switch (x)")
    ensures StartsWithSwitchWord("switch")
  {
  }

  lemma FormatExample()
    ensures Format("", "(\nfoo\n)\n") == "\nfoo"
  {
  }

  /** The one-pass rewrite works piece by piece, as long as no piece but the
      last ends in `}`. */
  lemma {:induction false} IndentedSwitchAppend(ind: string, a: string, b: string)
    requires !EndsWith(a, "}")
    ensures IndentedSwitch(ind, a + b) == IndentedSwitch(ind, a) + IndentedSwitch(ind, b)
    decreases |a|
  {
    if |a| == 0 {
      assert a + b == b;
    } else if |b| == 0 {
      assert a + b == a;
    } else {
      assert (a + b)[0] == a[0] && (a + b)[1..] == a[1..] + b;
      assert a + b != "}";
      assert a != "}";
      if |a| > 1 {
        assert a[1..][|a| - 2..] == a[|a| - 1..];
      }
      IndentedSwitchAppend(ind, a[1..], b);
    }
  }

  /** Text without `|` and without a final `}` comes through unchanged. */
  lemma {:induction false} IndentedSwitchPlain(ind: string, s: string)
    requires '|' !in s && !EndsWith(s, "}")
    ensures IndentedSwitch(ind, s) == s
    decreases |s|
  {
    if |s| > 0 {
      assert s != "}";
      assert s[0] in s;
      if |s| > 1 {
        assert s[1..][|s| - 2..] == s[|s| - 1..];
      }
      assert forall k :: 0 <= k < |s[1..]| ==> s[1..][k] == s[k + 1];
      IndentedSwitchPlain(ind, s[1..]);
    }
  }
}
