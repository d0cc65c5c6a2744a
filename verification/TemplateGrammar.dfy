/**
 What the playground's scanner takes for a comment, a string and a template literal, as
 grammars that generate text, and the proof that each scan ends where the grammar says.
 */
module TemplateGrammar {
  import opened ProtectText

  // ---------------------------------------------------------------------------
  // Comments and strings
  // ---------------------------------------------------------------------------

  /** A line comment reaches up to the first line break. */
  lemma {:induction false} FindIsFirst(src: string, i: nat, c: char)
    requires i <= |src|
    ensures var e := Find(src, i, c);
            (e < |src| ==> src[e] == c) && forall k :: i <= k < e ==> src[k] != c
    decreases |src| - i
  {
    if i < |src| && src[i] != c {
      FindIsFirst(src, i + 1, c);
    }
  }

  ghost predicate ClosesComment(src: string, k: nat) {
    k + 1 < |src| && src[k] == '*' && src[k + 1] == '/'
  }

  /** A block comment ends with its first closing mark, or with the source when it has none. */
  lemma {:induction false} CommentEndsAtFirstMark(src: string, i: nat)
    requires i <= |src|
    ensures var e := CommentEnd(src, i);
            || (i + 2 <= e <= |src| && ClosesComment(src, e - 2) &&
                forall k :: i <= k < e - 2 ==> !ClosesComment(src, k))
            || (e == |src| && forall k :: i <= k ==> !ClosesComment(src, k))
    decreases |src| - i
  {
    if i < |src| && !(src[i] == '*' && At(src, i + 1, '/')) {
      CommentEndsAtFirstMark(src, i + 1);
    }
  }

  /** Characters other than quote, line break and backslash, and backslashes with any character behind them. */
  ghost predicate StringBody(s: string, quote: char)
    decreases |s|
  {
    || s == ""
    || (s[0] == '\\' && |s| >= 2 && StringBody(s[2..], quote))
    || (s[0] != '\\' && s[0] != quote && s[0] != '\n' && StringBody(s[1..], quote))
  }

  /** A string stops at the one quote or line break that a string body leads up to. */
  lemma {:induction false} StringStopsAfterBody(src: string, start: nat, quote: char, k: nat)
    requires start <= |src| && k < |src| && quote != '\\'
    ensures StringStop(src, start, quote) == k <==>
            start <= k && StringBody(src[start..k], quote) && (src[k] == quote || src[k] == '\n')
    decreases |src| - start
  {
    if start < |src| && src[start] != quote && src[start] != '\n' {
      var step := if src[start] == '\\' then 2 else 1;
      if start + step <= |src| {
        StringStopsAfterBody(src, start + step, quote, k);
      }
      if start + step <= k {
        assert src[start..k][0] == src[start] && src[start..k][step..] == src[start + step..k];
      } else if start < k {
        assert src[start..k] == [src[start]];
      }
    } else if start < k {
      assert src[start..k][0] == src[start];
    }
  }

  // ---------------------------------------------------------------------------
  // Template literals
  // ---------------------------------------------------------------------------

  /** A piece of template text: a character, an escape, or an expression in a hole. */
  datatype TextPiece = Char(c: char) | Escape(c: char) | Expression(code: seq<CodePiece>)

  /** A piece of code in a hole: a character, an escape, a block in braces, or a template within. */
  datatype CodePiece = CodeChar(c: char) | CodeEscape(c: char) | Block(code: seq<CodePiece>)
                     | Template(text: seq<TextPiece>)

  ghost function RenderText(text: seq<TextPiece>): string
    decreases text
  {
    if text == [] then "" else RenderTextPiece(text[0]) + RenderText(text[1..])
  }

  ghost function RenderTextPiece(piece: TextPiece): string
    decreases piece
  {
    match piece
    case Char(c) => [c]
    case Escape(c) => ['\\', c]
    case Expression(code) => "${" + RenderCode(code) + "}"
  }

  ghost function RenderCode(code: seq<CodePiece>): string
    decreases code
  {
    if code == [] then "" else RenderCodePiece(code[0]) + RenderCode(code[1..])
  }

  ghost function RenderCodePiece(piece: CodePiece): string
    decreases piece
  {
    match piece
    case CodeChar(c) => [c]
    case CodeEscape(c) => ['\\', c]
    case Block(code) => "{" + RenderCode(code) + "}"
    case Template(text) => "`" + RenderText(text) + "`"
  }

  /** Plain characters are none that mean something there; a dollar sign is not followed by an opening brace. */
  ghost predicate WellFormedText(text: seq<TextPiece>)
    decreases text
  {
    text != [] ==>
      && (text[0].Char? ==> text[0].c != '`' && text[0].c != '\\')
      && (text[0] == Char('$') && |text| > 1 ==> text[1] != Char('{'))
      && (text[0].Expression? ==> WellFormedCode(text[0].code))
      && WellFormedText(text[1..])
  }

  ghost predicate WellFormedCode(code: seq<CodePiece>)
    decreases code
  {
    code != [] ==>
      && (code[0].CodeChar? ==> code[0].c != '\\' && code[0].c != '{' && code[0].c != '}' && code[0].c != '`')
      && (code[0].Block? ==> WellFormedCode(code[0].code))
      && (code[0].Template? ==> WellFormedText(code[0].text))
      && WellFormedCode(code[1..])
  }

  /** `s` stands at position `k`. */
  ghost predicate Stands(src: string, k: nat, s: string) {
    k + |s| <= |src| && src[k..k + |s|] == s
  }

  lemma StandsConcat(src: string, k: nat, a: string, b: string)
    ensures Stands(src, k, a + b) <==> Stands(src, k, a) && Stands(src, k + |a|, b)
  {
    if k + |a| + |b| <= |src| {
      assert src[k..k + |a + b|] == src[k..k + |a|] + src[k + |a|..k + |a| + |b|];
      if Stands(src, k, a + b) {
        assert src[k..k + |a|] == (a + b)[..|a|] && src[k + |a|..k + |a| + |b|] == (a + b)[|a|..];
      }
    }
  }

  /** What the two scans do at one character. */
  lemma TemplateSteps(src: string, k: nat)
    ensures At(src, k, '\\') ==> TemplateEnd(src, k) == TemplateEnd(src, k + 2)
    ensures At(src, k, '`') ==> TemplateEnd(src, k) == k + 1
    ensures At(src, k, '$') && At(src, k + 1, '{') ==>
              TemplateEnd(src, k) == TemplateEnd(src, ExpressionEnd(src, k + 2))
    ensures k < |src| && src[k] != '\\' && src[k] != '`' && !(src[k] == '$' && At(src, k + 1, '{')) ==>
              TemplateEnd(src, k) == TemplateEnd(src, k + 1)
  {
  }

  lemma ExpressionSteps(src: string, k: nat)
    ensures At(src, k, '\\') ==> ExpressionEnd(src, k) == ExpressionEnd(src, k + 2)
    ensures At(src, k, '}') ==> ExpressionEnd(src, k) == k + 1
    ensures At(src, k, '{') ==> ExpressionEnd(src, k) == ExpressionEnd(src, ExpressionEnd(src, k + 1))
    ensures At(src, k, '`') ==> ExpressionEnd(src, k) == ExpressionEnd(src, TemplateEnd(src, k + 1))
    ensures k < |src| && src[k] != '\\' && src[k] != '}' && src[k] != '{' && src[k] != '`' ==>
              ExpressionEnd(src, k) == ExpressionEnd(src, k + 1)
  {
  }

  /** The first characters of what stands at a position. */
  lemma StandsAt(src: string, k: nat, s: string)
    requires Stands(src, k, s) && s != ""
    ensures At(src, k, s[0]) && (|s| > 1 ==> At(src, k + 1, s[1]))
  {
    assert src[k..k + |s|][0] == s[0] && (|s| > 1 ==> src[k..k + |s|][1] == s[1]);
  }

  /** Text between two marks. */
  lemma Between(src: string, k: nat, open: string, inside: string, close: char)
    requires Stands(src, k, open + inside + [close])
    ensures Stands(src, k, open) && Stands(src, k + |open|, inside)
    ensures At(src, k + |open| + |inside|, close)
  {
    StandsConcat(src, k, open + inside, [close]);
    StandsConcat(src, k, open, inside);
    StandsAt(src, k + |open| + |inside|, [close]);
  }

  /** What text begins with. */
  lemma TextBegins(text: seq<TextPiece>)
    requires text != []
    ensures RenderTextPiece(text[0]) <= RenderText(text)
    ensures RenderText(text) != ""
    ensures RenderText(text)[0] == match text[0] case Char(c) => c case Escape(_) => '\\' case Expression(_) => '$'
  {
  }

  /** Inside a template its text is passed over, whatever follows, save a brace that would open a hole. */
  lemma {:induction false} TextIsPassed(src: string, k: nat, text: seq<TextPiece>)
    requires WellFormedText(text) && Stands(src, k, RenderText(text))
    requires text != [] && text[|text| - 1] == Char('$') ==> !At(src, k + |RenderText(text)|, '{')
    ensures TemplateEnd(src, k) == TemplateEnd(src, k + |RenderText(text)|)
    decreases text, 0
  {
    hide TemplateEnd, ExpressionEnd;
    if text != [] {
      var piece, rest := RenderTextPiece(text[0]), RenderText(text[1..]);
      StandsConcat(src, k, piece, rest);
      if text[0] == Char('$') && |text| > 1 {
        TextBegins(text[1..]);
        StandsAt(src, k + 1, rest);
      }
      hide Stands;
      TextPieceIsPassed(src, k, text[0]);
      TextIsPassed(src, k + |piece|, text[1..]);
    }
  }

  lemma {:induction false} TextPieceIsPassed(src: string, k: nat, piece: TextPiece)
    requires Stands(src, k, RenderTextPiece(piece))
    requires piece.Char? ==> piece.c != '`' && piece.c != '\\' && !(piece.c == '$' && At(src, k + 1, '{'))
    requires piece.Expression? ==> WellFormedCode(piece.code)
    ensures TemplateEnd(src, k) == TemplateEnd(src, k + |RenderTextPiece(piece)|)
    decreases piece, 1
  {
    hide TemplateEnd, ExpressionEnd, Stands;
    TemplateSteps(src, k);
    match piece
    case Char(c) => StandsAt(src, k, [c]);
    case Escape(c) => StandsAt(src, k, ['\\', c]);
    case Expression(code) =>
      var inside := RenderCode(code);
      Between(src, k, "${", inside, '}');
      StandsAt(src, k, "${");
      CodeIsPassed(src, k + 2, code);
      ExpressionSteps(src, k + 2 + |inside|);
  }

  /** Inside an expression or a block its code is passed over. */
  lemma {:induction false} CodeIsPassed(src: string, k: nat, code: seq<CodePiece>)
    requires WellFormedCode(code) && Stands(src, k, RenderCode(code))
    ensures ExpressionEnd(src, k) == ExpressionEnd(src, k + |RenderCode(code)|)
    decreases code, 0
  {
    hide TemplateEnd, ExpressionEnd, Stands;
    if code != [] {
      var piece, rest := RenderCodePiece(code[0]), RenderCode(code[1..]);
      StandsConcat(src, k, piece, rest);
      CodePieceIsPassed(src, k, code[0]);
      CodeIsPassed(src, k + |piece|, code[1..]);
    }
  }

  lemma {:induction false} CodePieceIsPassed(src: string, k: nat, piece: CodePiece)
    requires Stands(src, k, RenderCodePiece(piece))
    requires piece.CodeChar? ==> piece.c != '\\' && piece.c != '{' && piece.c != '}' && piece.c != '`'
    requires piece.Block? ==> WellFormedCode(piece.code)
    requires piece.Template? ==> WellFormedText(piece.text)
    ensures ExpressionEnd(src, k) == ExpressionEnd(src, k + |RenderCodePiece(piece)|)
    decreases piece, 1
  {
    hide TemplateEnd, ExpressionEnd, Stands;
    ExpressionSteps(src, k);
    match piece
    case CodeChar(c) => StandsAt(src, k, [c]);
    case CodeEscape(c) => StandsAt(src, k, ['\\', c]);
    case Block(code) =>
      var inside := RenderCode(code);
      Between(src, k, "{", inside, '}');
      StandsAt(src, k, "{");
      CodeIsPassed(src, k + 1, code);
      ExpressionSteps(src, k + 1 + |inside|);
    case Template(text) =>
      var inside := RenderText(text);
      Between(src, k, "`", inside, '`');
      StandsAt(src, k, "`");
      TextIsPassed(src, k + 1, text);
      TemplateSteps(src, k + 1 + |inside|);
  }

  lemma StandsThere(src: string, k: nat, s: string)
    requires 1 <= |s| <= 2 && At(src, k, s[0]) && (|s| == 2 ==> At(src, k + 1, s[1]))
    ensures Stands(src, k, s)
  {
  }

  lemma PrependText(src: string, k: nat, piece: TextPiece, rest: seq<TextPiece>)
    requires Stands(src, k, RenderTextPiece(piece))
    requires Stands(src, k + |RenderTextPiece(piece)|, RenderText(rest) + "`") && WellFormedText(rest)
    requires piece.Char? ==> piece.c != '`' && piece.c != '\\' && !(piece.c == '$' && At(src, k + 1, '{'))
    requires piece.Expression? ==> WellFormedCode(piece.code)
    ensures var text := [piece] + rest;
            && WellFormedText(text) && Stands(src, k, RenderText(text) + "`")
            && |RenderText(text)| == |RenderTextPiece(piece)| + |RenderText(rest)|
  {
    hide Stands;
    var text, front := [piece] + rest, RenderTextPiece(piece);
    assert text[0] == piece && text[1..] == rest;
    StandsConcat(src, k, front, RenderText(rest) + "`");
    assert RenderText(text) + "`" == front + (RenderText(rest) + "`");
    if piece.Char? && rest != [] && rest[0] == Char('{') {
      StandsAt(src, k + 1, RenderText(rest) + "`");
    }
  }

  /** A closed template holds text of the grammar up to its closing backtick. */
  lemma {:induction false} TextIsRead(src: string, k: nat) returns (text: seq<TextPiece>)
    requires TemplateEnd(src, k) < |src|
    ensures WellFormedText(text) && Stands(src, k, RenderText(text) + "`")
    ensures TemplateEnd(src, k) == k + |RenderText(text)| + 1
    decreases |src| - k, 1
  {
    TemplateSteps(src, k);
    hide ExpressionEnd, TemplateEnd, Stands;
    TemplateEndsLater(src, k);
    if src[k] == '`' {
      text := [];
      StandsThere(src, k, "`");
      assert RenderText(text) + "`" == "`";
    } else {
      var piece, rest := TextPieceIsRead(src, k);
      PrependText(src, k, piece, rest);
      text := [piece] + rest;
    }
  }

  lemma TemplateEndsLater(src: string, k: nat)
    ensures TemplateEnd(src, k) < |src| ==> k < TemplateEnd(src, k)
    ensures ExpressionEnd(src, k) < |src| ==> k < ExpressionEnd(src, k)
  {
  }

  lemma {:induction false} TextPieceIsRead(src: string, k: nat) returns (piece: TextPiece, rest: seq<TextPiece>)
    requires k < |src| && src[k] != '`' && TemplateEnd(src, k) < |src|
    ensures Stands(src, k, RenderTextPiece(piece)) && WellFormedText(rest)
    ensures piece.Char? ==> piece.c != '`' && piece.c != '\\' && !(piece.c == '$' && At(src, k + 1, '{'))
    ensures piece.Expression? ==> WellFormedCode(piece.code)
    ensures Stands(src, k + |RenderTextPiece(piece)|, RenderText(rest) + "`")
    ensures TemplateEnd(src, k) == k + |RenderTextPiece(piece)| + |RenderText(rest)| + 1
    decreases |src| - k, 0
  {
    hide ExpressionEnd, TemplateEnd, Stands;
    TemplateSteps(src, k);
    TemplateEndsLater(src, k + 2);
    if src[k] == '\\' {
      piece := Escape(src[k + 1]);
      StandsThere(src, k, ['\\', src[k + 1]]);
      rest := TextIsRead(src, k + 2);
    } else if src[k] == '$' && At(src, k + 1, '{') {
      TemplateEndsLater(src, ExpressionEnd(src, k + 2));
      var code := CodeIsRead(src, k + 2);
      StandsThere(src, k, "${");
      Enclose(src, k, "${", RenderCode(code), "}");
      piece := Expression(code);
      rest := TextIsRead(src, ExpressionEnd(src, k + 2));
    } else {
      piece := Char(src[k]);
      StandsThere(src, k, [src[k]]);
      rest := TextIsRead(src, k + 1);
    }
  }

  lemma Enclose(src: string, k: nat, open: string, inside: string, close: string)
    requires Stands(src, k, open) && Stands(src, k + |open|, inside + close)
    ensures Stands(src, k, open + inside + close)
  {
    StandsConcat(src, k, open, inside + close);
    assert open + (inside + close) == open + inside + close;
  }

  lemma PrependCode(src: string, k: nat, piece: CodePiece, rest: seq<CodePiece>)
    requires Stands(src, k, RenderCodePiece(piece))
    requires Stands(src, k + |RenderCodePiece(piece)|, RenderCode(rest) + "}") && WellFormedCode(rest)
    requires WellFormedCode([piece])
    ensures var code := [piece] + rest;
            && WellFormedCode(code) && Stands(src, k, RenderCode(code) + "}")
            && |RenderCode(code)| == |RenderCodePiece(piece)| + |RenderCode(rest)|
  {
    hide Stands;
    var code, front := [piece] + rest, RenderCodePiece(piece);
    assert code[0] == piece && code[1..] == rest;
    StandsConcat(src, k, front, RenderCode(rest) + "}");
    assert RenderCode(code) + "}" == front + (RenderCode(rest) + "}");
  }

  /** A closed expression or block holds code of the grammar up to its closing brace. */
  lemma {:induction false} CodeIsRead(src: string, k: nat) returns (code: seq<CodePiece>)
    requires ExpressionEnd(src, k) < |src|
    ensures WellFormedCode(code) && Stands(src, k, RenderCode(code) + "}")
    ensures ExpressionEnd(src, k) == k + |RenderCode(code)| + 1
    decreases |src| - k, 1
  {
    ExpressionSteps(src, k);
    hide ExpressionEnd, TemplateEnd, Stands;
    TemplateEndsLater(src, k);
    if src[k] == '}' {
      code := [];
      StandsThere(src, k, "}");
      assert RenderCode(code) + "}" == "}";
    } else {
      var piece, rest := CodePieceIsRead(src, k);
      PrependCode(src, k, piece, rest);
      code := [piece] + rest;
    }
  }

  lemma {:induction false} CodePieceIsRead(src: string, k: nat) returns (piece: CodePiece, rest: seq<CodePiece>)
    requires k < |src| && src[k] != '}' && ExpressionEnd(src, k) < |src|
    ensures Stands(src, k, RenderCodePiece(piece)) && WellFormedCode([piece]) && WellFormedCode(rest)
    ensures Stands(src, k + |RenderCodePiece(piece)|, RenderCode(rest) + "}")
    ensures ExpressionEnd(src, k) == k + |RenderCodePiece(piece)| + |RenderCode(rest)| + 1
    decreases |src| - k, 0
  {
    hide ExpressionEnd, TemplateEnd, Stands, RenderCode, RenderText, WellFormedText;
    ExpressionSteps(src, k);
    TemplateEndsLater(src, k + 2);
    if src[k] == '\\' {
      piece := CodeEscape(src[k + 1]);
      StandsThere(src, k, ['\\', src[k + 1]]);
      rest := CodeIsRead(src, k + 2);
    } else if src[k] == '{' {
      TemplateEndsLater(src, ExpressionEnd(src, k + 1));
      var inner := CodeIsRead(src, k + 1);
      StandsThere(src, k, "{");
      Enclose(src, k, "{", RenderCode(inner), "}");
      piece := Block(inner);
      rest := CodeIsRead(src, ExpressionEnd(src, k + 1));
    } else if src[k] == '`' {
      TemplateEndsLater(src, TemplateEnd(src, k + 1));
      var text := TextIsRead(src, k + 1);
      StandsThere(src, k, "`");
      Enclose(src, k, "`", RenderText(text), "`");
      piece := Template(text);
      rest := CodeIsRead(src, TemplateEnd(src, k + 1));
    } else {
      piece := CodeChar(src[k]);
      StandsThere(src, k, [src[k]]);
      rest := CodeIsRead(src, k + 1);
    }
  }

  /**
   A template literal ends at a place before the end of the source exactly when text of the
   grammar, and then a backtick, lead up to it.
   */
  lemma TemplateEndsExactly(src: string, k: nat, e: nat)
    requires e < |src|
    ensures TemplateEnd(src, k) == e <==>
            exists text :: WellFormedText(text) && Stands(src, k, RenderText(text) + "`") &&
                           e == k + |RenderText(text)| + 1
  {
    hide TemplateEnd, WellFormedText, RenderText;
    if TemplateEnd(src, k) == e {
      var text := TextIsRead(src, k);
    }
    if text :| WellFormedText(text) && Stands(src, k, RenderText(text) + "`") && e == k + |RenderText(text)| + 1 {
      StandsConcat(src, k, RenderText(text), "`");
      StandsAt(src, e - 1, "`");
      TextIsPassed(src, k, text);
      TemplateSteps(src, e - 1);
    }
  }
}
