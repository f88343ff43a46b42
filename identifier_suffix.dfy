/** The `getText` request handler: the dotted identifier that ends at the
    cursor, found with
    `/[A-Za-z_][A-Za-z_'0-9]*(?:\.[A-Za-z_][A-Za-z_'0-9]*)*\.?$/.exec`. */
module IdentifierSuffix {
  import opened Strings

  datatype Option<T> = None | Some(value: T)

  /** `[A-Za-z_]` */
  predicate IsIdentStart(c: char) {
    ('A' <= c <= 'Z') || ('a' <= c <= 'z') || c == '_'
  }

  /** `[A-Za-z_'0-9]` */
  predicate IsIdentChar(c: char) {
    IsIdentStart(c) || c == '\'' || ('0' <= c <= '9')
  }

  /** The pattern as an automaton: it must begin with an identifier; inside
      an identifier it may continue or take a dot; after a dot it must begin
      another identifier or stop. */
  datatype LexState = ExpectIdent | InIdent | AfterDot

  function Step(st: LexState, c: char): Option<LexState> {
    match st
    case ExpectIdent => if IsIdentStart(c) then Some(InIdent) else None
    case InIdent =>
      if IsIdentChar(c) then Some(InIdent) else if c == '.' then Some(AfterDot) else None
    case AfterDot => if IsIdentStart(c) then Some(InIdent) else None
  }

  predicate Accepts(st: LexState, t: string)
    decreases |t|
  {
    if |t| == 0 then st != ExpectIdent
    else match Step(st, t[0])
      case None => false
      case Some(next) => Accepts(next, t[1..])
  }

  /** `t` is entirely matched by the pattern. */
  predicate IsDottedIdent(t: string) {
    Accepts(ExpectIdent, t)
  }

  /** An independent description of the same language, character by
      character: it starts an identifier, holds only identifier characters
      and dots, and every dot that is not last is followed by the start of an
      identifier. */
  predicate HasDottedIdentShape(t: string) {
    |t| > 0 && IsIdentStart(t[0]) && TailShape(t)
  }

  predicate TailShape(t: string) {
    && (forall k :: 0 <= k < |t| ==> IsIdentChar(t[k]) || t[k] == '.')
    && (forall k :: 0 < k < |t| ==> t[k - 1] == '.' ==> IsIdentStart(t[k]))
  }

  lemma {:induction false} InIdentIsTailShape(t: string)
    ensures Accepts(InIdent, t) <==> TailShape(t)
    decreases |t|
  {
    if |t| > 0 {
      var u := t[1..];
      assert forall k :: 0 <= k < |u| ==> u[k] == t[k + 1];
      if IsIdentChar(t[0]) {
        InIdentIsTailShape(u);
        if TailShape(u) {
          forall k | 0 < k < |t| ensures t[k - 1] == '.' ==> IsIdentStart(t[k]) {
            if k > 1 {
              assert t[k - 1] == u[k - 2] && t[k] == u[k - 1];
            }
          }
        }
      } else if t[0] == '.' {
        if |u| > 0 {
          InIdentIsTailShape(u[1..]);
          var v := u[1..];
          assert forall k :: 0 <= k < |v| ==> v[k] == t[k + 2];
          if IsIdentStart(u[0]) && TailShape(v) {
            forall k | 0 < k < |t| ensures t[k - 1] == '.' ==> IsIdentStart(t[k]) {
              if k > 2 {
                assert t[k - 1] == v[k - 3] && t[k] == v[k - 2];
              }
            }
          }
          if TailShape(t) {
            assert IsIdentStart(t[1]);
          }
        }
      } else {
        assert !TailShape(t) by {
          assert !(IsIdentChar(t[0]) || t[0] == '.');
        }
      }
    }
  }

  /** The automaton and the character-by-character description agree. */
  lemma DottedIdentShape(t: string)
    ensures IsDottedIdent(t) <==> HasDottedIdentShape(t)
  {
    if |t| > 0 {
      InIdentIsTailShape(t[1..]);
      var u := t[1..];
      assert forall k :: 0 <= k < |u| ==> u[k] == t[k + 1];
      if IsIdentStart(t[0]) && TailShape(u) {
        forall k | 0 < k < |t| ensures t[k - 1] == '.' ==> IsIdentStart(t[k]) {
          if k > 1 {
            assert t[k - 1] == u[k - 2] && t[k] == u[k - 1];
          }
        }
      }
    }
  }

  /** The leftmost index from `i` on at which a match starts; with the `$`
      anchor a match starting at `j` is all of `s[j..]`. */
  function MatchStart(s: string, i: nat): (r: Option<nat>)
    requires i <= |s|
    ensures r.Some? ==> i <= r.value < |s| && IsDottedIdent(s[r.value..])
    ensures r.Some? ==> forall j :: i <= j < r.value ==> !IsDottedIdent(s[j..])
    ensures r.None? ==> forall j :: i <= j <= |s| ==> !IsDottedIdent(s[j..])
    decreases |s| - i
  {
    if i == |s| then None
    else if IsDottedIdent(s[i..]) then Some(i)
    else MatchStart(s, i + 1)
  }

  /** `pattern.exec(s)`: null, or the matched text. */
  function Exec(s: string): Option<string> {
    match MatchStart(s, 0)
    case None => None
    case Some(i) => Some(s[i..])
  }

  /** What the handler produces: the text, `undefined`, or a `TypeError`
      (reading `match[0]` of a null match), which rejects the request. */
  datatype Reply = Text(text: string) | Undefined | TypeError

  /** `match[0] ? match[0] : undefined` on the text before the cursor. */
  function GetText(before: string): (r: Reply)
    ensures r != Undefined
    ensures r.TypeError? <==> forall i :: 0 <= i <= |before| ==> !IsDottedIdent(before[i..])
    ensures r.Text? ==> EndsWith(before, r.text) && IsDottedIdent(r.text)
    ensures r.Text? ==> forall j :: 0 <= j < |before| - |r.text| ==> !IsDottedIdent(before[j..])
  {
    match Exec(before)
    case None => TypeError
    case Some(m) => if m != "" then Text(m) else Undefined
  }

  /** `document.getText(range)` for the range from column 0 to the cursor on
      the cursor's line: the line's text up to the cursor, clipped to the
      line as the editor clips ranges. */
  function CursorPrefix(lineText: string, character: nat): (s: string)
    ensures StartsWith(lineText, s)
    ensures |s| == if character <= |lineText| then character else |lineText|
  {
    if character <= |lineText| then lineText[..character] else lineText
  }

  /** The handler as a whole, on the text of the cursor's line. */
  function HandleGetText(lineText: string, character: nat): (r: Reply)
    ensures r != Undefined
    ensures r.Text? ==> IsDottedIdent(r.text) && |r.text| <= |CursorPrefix(lineText, character)| <= character
    ensures r.Text? ==> OccursAt(lineText, r.text, |CursorPrefix(lineText, character)| - |r.text|)
  {
    var before := CursorPrefix(lineText, character);
    var reply := GetText(before);
    assert reply.Text? ==>
      lineText[|before| - |reply.text|..|before|] == before[|before| - |reply.text|..];
    reply
  }

  /** The character just before the returned text cannot start an
      identifier: otherwise a longer suffix would match. */
  lemma GetTextStopsAtNonIdentStart(before: string)
    requires GetText(before).Text? && |GetText(before).text| < |before|
    ensures !IsIdentStart(before[|before| - |GetText(before).text| - 1])
  {
    var t := GetText(before).text;
    var j := |before| - |t|;
    assert before[j..] == t;
    assert before[j - 1..] == [before[j - 1]] + t;
    DottedIdentShape(t);
    DottedIdentShape(before[j - 1..]);
    var w := before[j - 1..];
    assert forall k :: 0 < k < |w| ==> w[k] == t[k - 1];
  }

  /** Asking again about the returned text returns it whole. */
  lemma GetTextIdempotent(before: string)
    requires GetText(before).Text?
    ensures GetText(GetText(before).text) == GetText(before)
  {
    var t := GetText(before).text;
    assert t[0..] == t;
  }

  lemma GetTextWholeExample()
    ensures GetText("Module.Sub.f") == Text("Module.Sub.f")
  {
    var s := "Module.Sub.f";
    assert HasDottedIdentShape(s) by {
      assert forall k :: 0 <= k < |s| ==> IsIdentChar(s[k]) || s[k] == '.';
    }
    DottedIdentShape(s);
  }

  lemma GetTextSuffixExample()
    ensures GetText("1 + foo") == Text("foo")
  {
    var s := "1 + foo";
    assert !IsDottedIdent(s[0..]) && !IsDottedIdent(s[1..]) && !IsDottedIdent(s[2..]);
    assert !IsDottedIdent(s[3..]);
    assert s[4..] == "foo" && IsDottedIdent("foo");
  }

  lemma GetTextNoMatchExample()
    ensures GetText("  ") == TypeError
  {
    var s := "  ";
    assert !IsDottedIdent(s[0..]) && !IsDottedIdent(s[1..]);
  }
}
