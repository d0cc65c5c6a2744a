/**
 The playground's text protection: block comments and template literals are swapped for
 numbered placeholders while a module is rewritten, and put back afterwards.
 */
module ProtectText {
  import opened Results

  const OPEN := '\U{0001}'
  const CLOSE := '\U{0002}'

  function Min(a: nat, b: nat): nat {
    if a < b then a else b
  }

  // ---------------------------------------------------------------------------
  // The lexical structure, by recursive descent
  // ---------------------------------------------------------------------------

  predicate At(src: string, k: nat, c: char) {
    k < |src| && src[k] == c
  }

  /** Past the template text starting at `k`: after its closing backtick, or past the end. */
  function TemplateEnd(src: string, k: nat): (e: nat)
    ensures e >= k && (k < |src| ==> e > k)
    decreases |src| - k
  {
    if k >= |src| then k
    else if src[k] == '\\' then TemplateEnd(src, k + 2)
    else if src[k] == '`' then k + 1
    else if src[k] == '$' && At(src, k + 1, '{') then TemplateEnd(src, ExpressionEnd(src, k + 2))
    else TemplateEnd(src, k + 1)
  }

  /** Past the expression or block starting at `k`: after its closing brace, or past the end. */
  function ExpressionEnd(src: string, k: nat): (e: nat)
    ensures e >= k && (k < |src| ==> e > k)
    decreases |src| - k
  {
    if k >= |src| then k
    else if src[k] == '\\' then ExpressionEnd(src, k + 2)
    else if src[k] == '}' then k + 1
    else if src[k] == '{' then ExpressionEnd(src, ExpressionEnd(src, k + 1))
    else if src[k] == '`' then ExpressionEnd(src, TemplateEnd(src, k + 1))
    else ExpressionEnd(src, k + 1)
  }

  /** Past `depth` nested blocks. */
  function BlocksEnd(src: string, k: nat, depth: nat): (e: nat)
    ensures e >= k
    decreases depth
  {
    if depth == 0 then k else BlocksEnd(src, ExpressionEnd(src, k), depth - 1)
  }

  /** The first position from `i` holding `c`, or the end. */
  function Find(src: string, i: nat, c: char): (e: nat)
    requires i <= |src|
    ensures i <= e <= |src|
    decreases |src| - i
  {
    if i == |src| || src[i] == c then i else Find(src, i + 1, c)
  }

  /** Past the block comment whose body starts at `i`. */
  function CommentEnd(src: string, i: nat): (e: nat)
    ensures i <= |src| ==> i <= e <= |src|
    ensures i > |src| ==> e == |src|
    decreases |src| - i
  {
    if i >= |src| then |src|
    else if src[i] == '*' && At(src, i + 1, '/') then i + 2
    else CommentEnd(src, i + 1)
  }

  /** Where a quoted string stops: at its quote, at a line break, or past the end. */
  function StringStop(src: string, j: nat, quote: char): (e: nat)
    ensures e >= j
    decreases |src| - j
  {
    if j >= |src| || src[j] == quote || src[j] == '\n' then j
    else StringStop(src, j + (if src[j] == '\\' then 2 else 1), quote)
  }

  datatype Token = Plain(text: string) | Protected(text: string)

  /** Where the token starting at `i` ends. */
  function TokenEnd(src: string, i: nat): (e: nat)
    requires i < |src|
    ensures e > i
  {
    if src[i] == '/' && At(src, i + 1, '/') then Find(src, i, '\n')
    else if src[i] == '/' && At(src, i + 1, '*') then CommentEnd(src, i + 2)
    else if src[i] == '"' || src[i] == '\'' then StringStop(src, i + 1, src[i]) + 1
    else if src[i] == '`' then TemplateEnd(src, i + 1)
    else i + 1
  }

  function TokenAt(src: string, i: nat): Token
    requires i < |src|
  {
    var text := src[i..Min(TokenEnd(src, i), |src|)];
    if src[i] == '`' || (src[i] == '/' && At(src, i + 1, '*')) then Protected(text) else Plain(text)
  }

  function Lex(src: string, i: nat): seq<Token>
    decreases |src| - i
  {
    if i >= |src| then [] else [TokenAt(src, i)] + Lex(src, TokenEnd(src, i))
  }

  // ---------------------------------------------------------------------------
  // Protecting
  // ---------------------------------------------------------------------------

  function Digits(n: nat): string {
    if n < 10 then [('0' as int + n) as char] else Digits(n / 10) + [('0' as int + n % 10) as char]
  }

  function LineBreaks(s: string): nat {
    multiset(s)['\n']
  }

  function Breaks(n: nat): string {
    seq(n, _ => '\n')
  }

  function Placeholder(index: nat, text: string): string {
    [OPEN] + Digits(index) + Breaks(LineBreaks(text)) + [CLOSE]
  }

  /** The protected code of a token list whose first placeholder has number `index`. */
  function Code(tokens: seq<Token>, index: nat): string {
    if tokens == [] then ""
    else match tokens[0]
      case Plain(text) => text + Code(tokens[1..], index)
      case Protected(text) => Placeholder(index, text) + Code(tokens[1..], index + 1)
  }

  function Saved(tokens: seq<Token>): seq<string> {
    if tokens == [] then []
    else if tokens[0].Protected? then [tokens[0].text] + Saved(tokens[1..])
    else Saved(tokens[1..])
  }

  /** The token at `i` by its first two characters, with what the scan appends for it. */
  lemma TokenCases(src: string, i: nat)
    requires i < |src|
    ensures var c, slash, star := src[i], At(src, i + 1, '/'), At(src, i + 1, '*');
            var e, token := TokenEnd(src, i), TokenAt(src, i);
            && (c == '/' && slash ==> e == Find(src, i, '\n') && token == Plain(src[i..e]))
            && (c == '/' && star ==> e == CommentEnd(src, i + 2) && token == Protected(src[i..e]))
            && (c == '"' || c == '\'' ==>
                  e == StringStop(src, i + 1, c) + 1 && token == Plain(src[i..Min(e, |src|)]))
            && (c == '`' ==> e == TemplateEnd(src, i + 1) && token == Protected(src[i..Min(e, |src|)]))
            && (c !in "/\"'`" || (c == '/' && !slash && !star) ==> e == i + 1 && token == Plain([c]))
  {
    hide TemplateEnd, CommentEnd, Find, StringStop;
    assert src[i..i + 1] == [src[i]];
  }

  /** What has been read up to `i` is in `code` and `saved`; the rest of `src` is still to come. */
  ghost predicate Reads(src: string, i: nat, code: string, saved: seq<string>) {
    && code + Code(Lex(src, i), |saved|) == Code(Lex(src, 0), 0)
    && saved + Saved(Lex(src, i)) == Saved(Lex(src, 0))
  }

  lemma NextToken(src: string, i: nat, index: nat)
    requires i < |src|
    ensures var token, rest := TokenAt(src, i), Lex(src, TokenEnd(src, i));
            && Code(Lex(src, i), index) ==
               (if token.Plain? then token.text + Code(rest, index)
                else Placeholder(index, token.text) + Code(rest, index + 1))
            && Saved(Lex(src, i)) == (if token.Plain? then [] else [token.text]) + Saved(rest)
  {
    hide TokenAt, TokenEnd, Placeholder;
    var token, rest := TokenAt(src, i), Lex(src, TokenEnd(src, i));
    assert Lex(src, i) == [token] + rest && ([token] + rest)[1..] == rest;
  }

  lemma ReadPlain(src: string, i: nat, code: string, saved: seq<string>)
    requires i < |src| && TokenAt(src, i).Plain? && Reads(src, i, code, saved)
    ensures Reads(src, TokenEnd(src, i), code + TokenAt(src, i).text, saved)
  {
    hide TokenAt, TokenEnd, Lex, Code, Saved;
    NextToken(src, i, |saved|);
    var text, rest := TokenAt(src, i).text, Lex(src, TokenEnd(src, i));
    assert code + (text + Code(rest, |saved|)) == code + text + Code(rest, |saved|);
    assert [] + Saved(rest) == Saved(rest);
  }

  lemma ReadProtected(src: string, i: nat, code: string, saved: seq<string>)
    requires i < |src| && TokenAt(src, i).Protected? && Reads(src, i, code, saved)
    ensures var text := TokenAt(src, i).text;
            Reads(src, TokenEnd(src, i), code + Placeholder(|saved|, text), saved + [text])
  {
    hide TokenAt, TokenEnd, Placeholder, Lex, Code, Saved;
    NextToken(src, i, |saved|);
    var text, rest := TokenAt(src, i).text, Lex(src, TokenEnd(src, i));
    var part, later := Placeholder(|saved|, text), Code(rest, |saved| + 1);
    assert code + (part + later) == code + part + later;
    assert saved + ([text] + Saved(rest)) == saved + [text] + Saved(rest);
  }

  /** Nothing is read past the end, wherever past the end the scan stopped. */
  lemma ReadAll(src: string, i: nat, code: string, saved: seq<string>)
    requires i >= |src| && Reads(src, i, code, saved)
    ensures code == Code(Lex(src, 0), 0) && saved == Saved(Lex(src, 0))
    ensures forall e: nat | e >= |src| :: Reads(src, e, code, saved)
  {
    assert code + "" == code && saved + [] == saved;
  }

  lemma ReadLineComment(src: string, i: nat, code: string, saved: seq<string>)
    requires i < |src| && src[i] == '/' && At(src, i + 1, '/') && Reads(src, i, code, saved)
    ensures var e := Find(src, i, '\n'); Reads(src, e, code + src[i..e], saved)
  {
    hide Reads;
    TokenCases(src, i);
    ReadPlain(src, i, code, saved);
  }

  lemma ReadBlockComment(src: string, i: nat, code: string, saved: seq<string>)
    requires i < |src| && src[i] == '/' && At(src, i + 1, '*') && Reads(src, i, code, saved)
    ensures var e := CommentEnd(src, i + 2);
            i <= e <= |src| && Reads(src, e, code + Placeholder(|saved|, src[i..e]), saved + [src[i..e]])
  {
    hide Reads, Placeholder;
    TokenCases(src, i);
    ReadProtected(src, i, code, saved);
  }

  lemma ReadString(src: string, i: nat, code: string, saved: seq<string>)
    requires i < |src| && src[i] in "\"'" && Reads(src, i, code, saved)
    ensures var e := StringStop(src, i + 1, src[i]) + 1; Reads(src, e, code + src[i..Min(e, |src|)], saved)
  {
    hide Reads;
    TokenCases(src, i);
    ReadPlain(src, i, code, saved);
  }

  lemma ReadTemplate(src: string, i: nat, k: nat, code: string, saved: seq<string>)
    requires i < |src| && src[i] == '`' && i < k && Reads(src, i, code, saved)
    requires if k < |src| then TemplateEnd(src, i + 1) == k + 1 else TemplateEnd(src, i + 1) >= |src|
    ensures var text := src[i..Min(k + 1, |src|)];
            Reads(src, k + 1, code + Placeholder(|saved|, text), saved + [text])
  {
    hide Reads, Placeholder;
    TokenCases(src, i);
    ReadProtected(src, i, code, saved);
    if k >= |src| {
      var text := src[i..|src|];
      ReadAll(src, TokenEnd(src, i), code + Placeholder(|saved|, text), saved + [text]);
    }
  }

  lemma ReadCharacter(src: string, i: nat, code: string, saved: seq<string>)
    requires i < |src| && src[i] !in "\"'`" && Reads(src, i, code, saved)
    requires src[i] == '/' ==> !At(src, i + 1, '/') && !At(src, i + 1, '*')
    ensures Reads(src, i + 1, code + [src[i]], saved)
  {
    hide Reads;
    TokenCases(src, i);
    ReadPlain(src, i, code, saved);
  }

  lemma ReadNothing(src: string)
    ensures Reads(src, 0, "", [])
  {
    assert "" + Code(Lex(src, 0), 0) == Code(Lex(src, 0), 0);
    assert [] + Saved(Lex(src, 0)) == Saved(Lex(src, 0));
  }

  /** The code with its placeholders, and the saved texts in order. */
  method Protect(src: string) returns (code: string, saved: seq<string>)
    ensures code == Code(Lex(src, 0), 0) && saved == Saved(Lex(src, 0))
    ensures Restore(code, saved) == src <==> Unambiguous(src, 0)
    ensures OPEN !in src ==> Restore(code, saved) == src
    ensures LineBreaks(code) == LineBreaks(src)
  {
    hide Restore, Unambiguous, LineBreaks, Code, Saved, Placeholder, TemplateEnd, CommentEnd, Find, Lex, StringStop,
         Reads;
    saved, code := [], "";
    var i, n := 0, |src|;
    ReadNothing(src);
    while i < n
      invariant Reads(src, i, code, saved)
      decreases n - i
    {
      var c := src[i];
      var next := if i + 1 < n then Some(src[i + 1]) else None;
      if c == '/' && next == Some('/') {
        ReadLineComment(src, i, code, saved);
        var eol := Find(src, i, '\n');
        code := code + src[i..eol];
        FindAdvances(src, i, '\n');
        i := eol;
      } else if c == '/' && next == Some('*') {
        ReadBlockComment(src, i, code, saved);
        var close := CommentEnd(src, i + 2);
        code, saved := Keep(src, i, close, code, saved);
        i := close;
      } else if c == '"' || c == '\'' {
        ReadString(src, i, code, saved);
        var j := ScanString(src, i + 1, c);
        code := code + src[i..Min(j + 1, n)];
        i := j + 1;
      } else if c == '`' {
        var k := ScanTemplate(src, i + 1);
        ReadTemplate(src, i, k, code, saved);
        code, saved := Keep(src, i, Min(k + 1, n), code, saved);
        i := k + 1;
      } else {
        ReadCharacter(src, i, code, saved);
        code := code + [c];
        i := i + 1;
      }
    }
    ReadAll(src, i, code, saved);
    RoundTrip(src);
    KeepsLineBreaks(src, 0, 0);
    assert src[0..] == src;
  }

  lemma FindAdvances(src: string, i: nat, c: char)
    requires i < |src| && src[i] != c
    ensures Find(src, i, c) > i
  {
  }

  /** Appends a placeholder for a piece of the source and saves the piece. */
  method Keep(src: string, start: nat, end: nat, out: string, kept: seq<string>)
    returns (code: string, saved: seq<string>)
    requires start <= end <= |src|
    ensures code == out + Placeholder(|kept|, src[start..end]) && saved == kept + [src[start..end]]
  {
    var text := src[start..end];
    var breaks := LineBreaks(text);
    code := out + [OPEN] + Digits(|kept|) + Breaks(breaks) + [CLOSE];
    saved := kept + [text];
  }

  method ScanString(src: string, start: nat, quote: char) returns (j: nat)
    ensures j == StringStop(src, start, quote)
  {
    j := start;
    while j < |src| && src[j] != quote && src[j] != '\n'
      invariant StringStop(src, start, quote) == StringStop(src, j, quote)
      decreases |src| - j
    {
      j := j + if src[j] == '\\' then 2 else 1;
    }
  }

  // ---------------------------------------------------------------------------
  // The template scanner's stack
  // ---------------------------------------------------------------------------

  /** -1 for a nested template, otherwise the number of open braces of an expression. */
  type Frame = f: int | f == -1 || f > 0 witness -1

  /** Where the outer template ends, from position `k` with `depth` still open. */
  function Unwound(src: string, k: nat, depth: seq<Frame>): (e: nat)
    ensures e >= k
    decreases |depth|
  {
    if depth == [] then TemplateEnd(src, k)
    else
      var top := depth[|depth| - 1];
      var rest := depth[..|depth| - 1];
      if top == -1 then Unwound(src, TemplateEnd(src, k), rest) else Unwound(src, BlocksEnd(src, k, top), rest)
  }

  lemma PushUnwound(src: string, k: nat, depth: seq<Frame>, f: Frame)
    ensures Unwound(src, k, depth + [f]) ==
            Unwound(src, if f == -1 then TemplateEnd(src, k) else BlocksEnd(src, k, f), depth)
  {
    assert (depth + [f])[..|depth|] == depth;
  }

  /** What one character inside an expression does to the stack. */
  lemma InExpression(src: string, k: nat, rest: seq<Frame>, top: Frame)
    requires k < |src| && top > 0 && src[k] != '\\'
    ensures var here := Unwound(src, k, rest + [top]);
            && (src[k] == '{' ==> here == Unwound(src, k + 1, rest + [top + 1]))
            && (src[k] == '}' && top == 1 ==> here == Unwound(src, k + 1, rest))
            && (src[k] == '}' && top > 1 ==> here == Unwound(src, k + 1, rest + [top - 1]))
            && (src[k] == '`' ==> here == Unwound(src, k + 1, rest + [top] + [-1]))
            && (src[k] !in {'{', '}', '`'} ==> here == Unwound(src, k + 1, rest + [top]))
  {
    PushUnwound(src, k, rest, top);
    PushUnwound(src, k + 1, rest, top);
    PushUnwound(src, k + 1, rest, top + 1);
    if top > 1 {
      PushUnwound(src, k + 1, rest, top - 1);
    }
    PushUnwound(src, k + 1, rest + [top], -1);
    PushUnwound(src, TemplateEnd(src, k + 1), rest, top);
  }

  /** What one character of a nested template's text does to the stack. */
  lemma InNestedText(src: string, k: nat, rest: seq<Frame>)
    requires k < |src| && src[k] != '\\'
    ensures var here := Unwound(src, k, rest + [-1]);
            if src[k] == '`' then here == Unwound(src, k + 1, rest)
            else if src[k] == '$' && At(src, k + 1, '{') then here == Unwound(src, k + 2, rest + [-1] + [1])
            else here == Unwound(src, k + 1, rest + [-1])
  {
    PushUnwound(src, k, rest, -1);
    PushUnwound(src, k + 1, rest, -1);
    PushUnwound(src, k + 2, rest + [-1], 1);
    PushUnwound(src, ExpressionEnd(src, k + 2), rest, -1);
    assert BlocksEnd(src, k + 2, 1) == ExpressionEnd(src, k + 2);
  }

  lemma InOuterText(src: string, k: nat)
    requires k < |src| && src[k] != '\\' && src[k] != '`'
    ensures Unwound(src, k, []) ==
            if src[k] == '$' && At(src, k + 1, '{') then Unwound(src, k + 2, [1]) else Unwound(src, k + 1, [])
  {
    PushUnwound(src, k + 2, [], 1);
    assert BlocksEnd(src, k + 2, 1) == ExpressionEnd(src, k + 2);
    assert [] + [1] == [1];
  }

  lemma Escaped(src: string, k: nat, depth: seq<Frame>)
    requires k < |src| && src[k] == '\\'
    ensures Unwound(src, k + 2, depth) == Unwound(src, k, depth)
  {
    if depth != [] {
      var top, rest := depth[|depth| - 1], depth[..|depth| - 1];
      assert depth == rest + [top];
      PushUnwound(src, k, rest, top);
      PushUnwound(src, k + 2, rest, top);
    }
  }

  lemma StackAtEnd(src: string, k: nat, depth: seq<Frame>)
    ensures depth == [] && k < |src| && src[k] == '`' ==> Unwound(src, k, depth) == k + 1
    ensures k >= |src| ==> Unwound(src, k, depth) >= |src|
  {
  }

  /**
   The scanner with an explicit stack: `k` is the closing backtick of the template whose
   text starts at `start`, or past the end when there is none.
   */
  method ScanTemplate(src: string, start: nat) returns (k: nat)
    ensures k >= start
    ensures if k < |src| then TemplateEnd(src, start) == k + 1 else TemplateEnd(src, start) >= |src|
  {
    hide BlocksEnd, ExpressionEnd, TemplateEnd;
    k := start;
    var depth: seq<Frame> := [];
    assert Unwound(src, k, depth) == TemplateEnd(src, start);
    hide Unwound;
    while k < |src|
      invariant k >= start
      invariant Unwound(src, k, depth) == TemplateEnd(src, start)
      decreases |src| - k
    {
      var d := src[k];
      if d == '\\' {
        Escaped(src, k, depth);
        k := k + 2;
        continue;
      }
      ghost var rest := if depth == [] then [] else depth[..|depth| - 1];
      assert depth != [] ==> depth == rest + [depth[|depth| - 1]];
      if |depth| > 0 && depth[|depth| - 1] > 0 {
        var top := depth[|depth| - 1];
        InExpression(src, k, rest, top);
        if d == '{' {
          depth := depth[..|depth| - 1] + [top + 1];
        } else if d == '}' {
          depth := depth[..|depth| - 1];
          if top > 1 {
            depth := depth + [top - 1];
          }
        } else if d == '`' {
          depth := depth + [-1];
        }
        k := k + 1;
        continue;
      }
      if |depth| > 0 {
        InNestedText(src, k, rest);
      }
      if d == '`' {
        if |depth| > 0 && depth[|depth| - 1] == -1 {
          depth := depth[..|depth| - 1];
          k := k + 1;
          continue;
        }
        break;
      }
      if |depth| == 0 {
        InOuterText(src, k);
      }
      if d == '$' && k + 1 < |src| && src[k + 1] == '{' {
        depth := depth + [1];
        k := k + 2;
        continue;
      }
      k := k + 1;
    }
    StackAtEnd(src, k, depth);
  }

  // ---------------------------------------------------------------------------
  // Restoring
  // ---------------------------------------------------------------------------

  predicate IsDigit(c: char) {
    '0' <= c <= '9'
  }

  /**
   How many characters complete a placeholder from here, or 0: `state` is 0 right after the
   opening mark, 1 after a digit, 2 after a line break.
   */
  function Tail(s: string, state: nat): (length: nat)
    ensures length <= |s|
  {
    if s == "" then 0
    else if IsDigit(s[0]) && state <= 1 then Extend(Tail(s[1..], 1))
    else if s[0] == '\n' && state >= 1 then Extend(Tail(s[1..], 2))
    else if s[0] == CLOSE && state >= 1 then 1
    else 0
  }

  function Extend(length: nat): nat {
    if length == 0 then 0 else length + 1
  }

  /** The number written at the front of `s`, after the digits already read as `value`. */
  function Value(s: string, value: nat): nat {
    if s != "" && IsDigit(s[0]) then Value(s[1..], 10 * value + (s[0] as int - '0' as int)) else value
  }

  predicate StartsPlaceholder(s: string) {
    s != "" && s[0] == OPEN && Tail(s[1..], 0) > 0
  }

  /** The saved text a placeholder stands for; an index out of range reads as "undefined". */
  function Lookup(saved: seq<string>, index: nat): string {
    if index < |saved| then saved[index] else "undefined"
  }

  /** The text with each placeholder, leftmost first, replaced by the saved text it numbers. */
  function Restore(s: string, saved: seq<string>): string
    decreases |s|
  {
    if s == "" then ""
    else if StartsPlaceholder(s) then
      Lookup(saved, Value(s[1..], 0)) + Restore(s[1 + Tail(s[1..], 0)..], saved)
    else [s[0]] + Restore(s[1..], saved)
  }

  // ---------------------------------------------------------------------------
  // A placeholder is found again and its number read back
  // ---------------------------------------------------------------------------

  predicate AllDigits(s: string) {
    forall c <- s :: IsDigit(c)
  }

  lemma {:induction false} DigitsAreDigits(n: nat)
    ensures Digits(n) != "" && AllDigits(Digits(n))
  {
    if n >= 10 {
      DigitsAreDigits(n / 10);
    }
  }

  lemma {:induction false} ValueConcat(digits: string, rest: string, value: nat)
    requires AllDigits(digits)
    ensures Value(digits + rest, value) == Value(rest, Value(digits, value))
  {
    if digits == "" {
      assert digits + rest == rest;
    } else {
      assert digits[0] in digits && (digits + rest)[1..] == digits[1..] + rest;
      ValueConcat(digits[1..], rest, 10 * value + (digits[0] as int - '0' as int));
    }
  }

  lemma {:induction false} ValueOfDigits(n: nat)
    ensures Value(Digits(n), 0) == n
  {
    if n >= 10 {
      DigitsAreDigits(n / 10);
      ValueOfDigits(n / 10);
      ValueConcat(Digits(n / 10), [('0' as int + n % 10) as char], 0);
    }
  }

  lemma {:induction false} TailOfBreaks(breaks: nat, rest: string, state: nat)
    requires state >= 1
    ensures Tail(Breaks(breaks) + [CLOSE] + rest, state) == breaks + 1
  {
    var s := Breaks(breaks) + [CLOSE] + rest;
    if breaks > 0 {
      assert s[1..] == Breaks(breaks - 1) + [CLOSE] + rest;
      TailOfBreaks(breaks - 1, rest, 2);
    }
  }

  lemma {:induction false} TailOfDigits(digits: string, breaks: nat, rest: string, state: nat)
    requires AllDigits(digits) && state <= 1 && (digits != "" || state == 1)
    ensures Tail(digits + (Breaks(breaks) + [CLOSE] + rest), state) == |digits| + breaks + 1
  {
    var after := Breaks(breaks) + [CLOSE] + rest;
    if digits == "" {
      assert digits + after == after;
      TailOfBreaks(breaks, rest, 1);
    } else {
      assert (digits + after)[1..] == digits[1..] + after;
      TailOfDigits(digits[1..], breaks, rest, 1);
    }
  }

  lemma NoDigitAhead(breaks: nat, rest: string, value: nat)
    ensures Value(Breaks(breaks) + [CLOSE] + rest, value) == value
  {
    var s := Breaks(breaks) + [CLOSE] + rest;
    assert s[0] == if breaks > 0 then '\n' else CLOSE;
  }

  lemma PlaceholderRestored(index: nat, text: string, rest: string, saved: seq<string>)
    ensures Restore(Placeholder(index, text) + rest, saved) == Lookup(saved, index) + Restore(rest, saved)
  {
    hide Tail, Value, Digits;
    var digits, breaks := Digits(index), LineBreaks(text);
    var after := Breaks(breaks) + [CLOSE] + rest;
    var s := Placeholder(index, text) + rest;
    assert s[0] == OPEN && s[1..] == digits + after;
    DigitsAreDigits(index);
    TailOfDigits(digits, breaks, rest, 0);
    ValueConcat(digits, after, 0);
    ValueOfDigits(index);
    NoDigitAhead(breaks, rest, index);
    assert s[1 + |digits| + breaks + 1..] == rest;
  }

  // ---------------------------------------------------------------------------
  // What an edit between protecting and restoring may do
  // ---------------------------------------------------------------------------

  /** A stretch of the edited code: text, or a placeholder that was left alone. */
  datatype Piece = Raw(text: string) | Hole(index: nat, original: string)

  function Flat(pieces: seq<Piece>): string {
    if pieces == [] then ""
    else match pieces[0]
      case Raw(text) => text + Flat(pieces[1..])
      case Hole(index, original) => Placeholder(index, original) + Flat(pieces[1..])
  }

  function Filled(pieces: seq<Piece>, saved: seq<string>): string {
    if pieces == [] then ""
    else (if pieces[0].Raw? then pieces[0].text else Lookup(saved, pieces[0].index)) + Filled(pieces[1..], saved)
  }

  lemma {:induction false} RestoreSkips(text: string, rest: string, saved: seq<string>)
    requires OPEN !in text
    ensures Restore(text + rest, saved) == text + Restore(rest, saved)
  {
    if text == "" {
      assert text + rest == rest;
    } else {
      var s := text + rest;
      assert s[0] == text[0] && s[1..] == text[1..] + rest;
      RestoreSkips(text[1..], rest, saved);
      assert [s[0]] + (text[1..] + Restore(rest, saved)) == text + Restore(rest, saved);
    }
  }

  /**
   However the text around the placeholders is rewritten, reordered or dropped, restoring
   fills each placeholder that is left with the text saved under its number.
   */
  lemma {:induction false} RestoreEdited(pieces: seq<Piece>, saved: seq<string>)
    requires forall piece <- pieces :: piece.Raw? ==> OPEN !in piece.text
    ensures Restore(Flat(pieces), saved) == Filled(pieces, saved)
  {
    if pieces != [] {
      RestoreEdited(pieces[1..], saved);
      assert pieces[0] in pieces;
      if pieces[0].Raw? {
        RestoreSkips(pieces[0].text, Flat(pieces[1..]), saved);
      } else {
        PlaceholderRestored(pieces[0].index, pieces[0].original, Flat(pieces[1..]), saved);
      }
    }
  }

  // ---------------------------------------------------------------------------
  // The round trip
  // ---------------------------------------------------------------------------

  function From(src: string, i: nat): string {
    if i <= |src| then src[i..] else ""
  }

  /** No placeholder starts inside `text` when `rest` follows it. */
  predicate Quiet(text: string, rest: string) {
    text == "" || (!StartsPlaceholder(text + rest) && Quiet(text[1..], rest))
  }

  /** No text that is copied as it stands reads as a placeholder. */
  predicate Unambiguous(src: string, i: nat)
    decreases |src| - i
  {
    i < |src| ==>
      var token, e := TokenAt(src, i), TokenEnd(src, i);
      (token.Plain? ==> Quiet(token.text, From(src, e))) && Unambiguous(src, e)
  }

  ghost predicate Alike(a: string, b: string) {
    forall state: nat :: Tail(a, state) == Tail(b, state)
  }

  lemma {:induction false} AlikeAfter(text: string, a: string, b: string)
    requires Alike(a, b)
    ensures Alike(text + a, text + b)
  {
    if text == "" {
      assert text + a == a && text + b == b;
    } else {
      AlikeAfter(text[1..], a, b);
      assert (text + a)[1..] == text[1..] + a && (text + b)[1..] == text[1..] + b;
    }
  }

  lemma SplitAtToken(src: string, i: nat)
    requires i < |src|
    ensures From(src, i) == TokenAt(src, i).text + From(src, TokenEnd(src, i))
    ensures TokenAt(src, i).text != ""
    ensures TokenAt(src, i).Protected? ==> TokenAt(src, i).text[0] in "/`"
  {
    hide TokenEnd;
    var e := TokenEnd(src, i);
    assert e <= |src| ==> src[i..] == src[i..e] + src[e..];
  }

  lemma NoTail(text: string, rest: string)
    requires text != "" && text[0] in [OPEN, '/', '`']
    ensures forall state: nat :: Tail(text + rest, state) == 0
  {
  }

  lemma NoToken(src: string, i: nat, index: nat)
    requires i >= |src|
    ensures Code(Lex(src, i), index) == "" && Saved(Lex(src, i)) == [] && From(src, i) == ""
  {
  }

  /** Swapping text for placeholders cannot complete a placeholder begun before it. */
  lemma {:induction false} CodeAlike(src: string, i: nat, index: nat)
    ensures Alike(Code(Lex(src, i), index), From(src, i))
    decreases |src| - i
  {
    hide TokenAt, TokenEnd, Lex, From;
    if i >= |src| {
      NoToken(src, i, index);
    } else {
      var token, e := TokenAt(src, i), TokenEnd(src, i);
      NextToken(src, i, index);
      SplitAtToken(src, i);
      if token.Plain? {
        CodeAlike(src, e, index);
        AlikeAfter(token.text, Code(Lex(src, e), index), From(src, e));
      } else {
        NoTail(Placeholder(index, token.text), Code(Lex(src, e), index + 1));
        NoTail(token.text, From(src, e));
      }
    }
  }

  lemma {:induction false} QuietLike(text: string, a: string, b: string)
    requires Alike(a, b)
    ensures Quiet(text, a) == Quiet(text, b)
  {
    if text != "" {
      AlikeAfter(text[1..], a, b);
      assert (text + a)[1..] == text[1..] + a && (text + b)[1..] == text[1..] + b;
      QuietLike(text[1..], a, b);
    }
  }

  /** No saved text starts with the opening mark, so filling one in cannot leave a mark where it stood. */
  ghost predicate Recognisable(saved: seq<string>) {
    forall text <- saved :: text != "" && text[0] != OPEN
  }

  /** Copied text survives restoring exactly when no placeholder seems to start in it. */
  lemma {:induction false} RestoreCopies(text: string, rest: string, saved: seq<string>)
    requires Recognisable(saved)
    ensures if Quiet(text, rest) then Restore(text + rest, saved) == text + Restore(rest, saved)
            else !(text <= Restore(text + rest, saved))
  {
    hide StartsPlaceholder;
    if text == "" {
      assert text + rest == rest;
    } else {
      var s := text + rest;
      assert s[0] == text[0] && s[1..] == text[1..] + rest;
      if StartsPlaceholder(s) {
        NotCopied(s, saved);
      } else {
        RestoreCopies(text[1..], rest, saved);
        assert Restore(s, saved) == [text[0]] + Restore(s[1..], saved);
        hide Restore, Quiet;
        assert [text[0]] + (text[1..] + Restore(rest, saved)) == text + Restore(rest, saved);
        assert ([text[0]] + Restore(s[1..], saved))[1..] == Restore(s[1..], saved);
      }
    }
  }

  lemma NotCopied(s: string, saved: seq<string>)
    requires StartsPlaceholder(s) && Recognisable(saved)
    ensures Restore(s, saved) != "" && Restore(s, saved)[0] != s[0]
  {
    hide Tail, Value;
    var text := Lookup(saved, Value(s[1..], 0));
    assert text != "" && text[0] != OPEN;
  }

  lemma {:induction false} SavedRecognisable(src: string, i: nat)
    ensures Recognisable(Saved(Lex(src, i)))
    decreases |src| - i
  {
    hide TokenAt, TokenEnd, Lex, Saved;
    if i >= |src| {
      NoToken(src, i, 0);
    } else {
      NextToken(src, i, 0);
      SplitAtToken(src, i);
      SavedRecognisable(src, TokenEnd(src, i));
    }
  }

  lemma SameFront(front: string, a: string, b: string)
    ensures front + a == front + b <==> a == b
    ensures front <= front + b
  {
    assert (front + a)[|front|..] == a && (front + b)[|front|..] == b;
  }

  lemma {:induction false} RestoreFrom(src: string, i: nat, done: seq<string>, saved: seq<string>)
    requires saved == done + Saved(Lex(src, i)) && Recognisable(saved)
    ensures Restore(Code(Lex(src, i), |done|), saved) == From(src, i) <==> Unambiguous(src, i)
    decreases |src| - i
  {
    assert Restore("", saved) == "";
    hide TokenAt, TokenEnd, Lex, Saved, Code, Placeholder, From, Quiet, Restore, Alike, Recognisable;
    if i >= |src| {
      NoToken(src, i, |done|);
    } else {
      var token, e := TokenAt(src, i), TokenEnd(src, i);
      NextToken(src, i, |done|);
      SplitAtToken(src, i);
      var rest := Lex(src, e);
      if token.Plain? {
        assert [] + Saved(rest) == Saved(rest);
        RestoreFrom(src, e, done, saved);
        CodeAlike(src, e, |done|);
        QuietLike(token.text, Code(rest, |done|), From(src, e));
        RestoreCopies(token.text, Code(rest, |done|), saved);
        SameFront(token.text, Restore(Code(rest, |done|), saved), From(src, e));
      } else {
        assert done + ([token.text] + Saved(rest)) == done + [token.text] + Saved(rest);
        RestoreFrom(src, e, done + [token.text], saved);
        PlaceholderRestored(|done|, token.text, Code(rest, |done| + 1), saved);
        assert Lookup(saved, |done|) == token.text;
        SameFront(token.text, Restore(Code(rest, |done| + 1), saved), From(src, e));
      }
    }
  }

  lemma {:induction false} QuietWithoutMark(text: string, rest: string)
    requires OPEN !in text
    ensures Quiet(text, rest)
  {
    if text != "" {
      QuietWithoutMark(text[1..], rest);
    }
  }

  lemma {:induction false} NoMarkNoAmbiguity(src: string, i: nat)
    requires OPEN !in src
    ensures Unambiguous(src, i)
    decreases |src| - i
  {
    hide TokenEnd, TokenAt, Quiet;
    if i < |src| {
      NoMarkNoAmbiguity(src, TokenEnd(src, i));
      assert OPEN !in TokenAt(src, i).text by {
        SplitAtToken(src, i);
        assert forall c <- From(src, i) :: c in src;
        assert forall c <- TokenAt(src, i).text :: c in From(src, i);
      }
      QuietWithoutMark(TokenAt(src, i).text, From(src, TokenEnd(src, i)));
    }
  }

  // ---------------------------------------------------------------------------
  // Line numbers
  // ---------------------------------------------------------------------------

  lemma BreaksConcat(a: string, b: string)
    ensures LineBreaks(a + b) == LineBreaks(a) + LineBreaks(b)
  {
  }

  lemma {:induction false} BreaksAdd(count: nat)
    ensures LineBreaks(Breaks(count)) == count
  {
    if count > 0 {
      assert Breaks(count) == ['\n'] + Breaks(count - 1);
      BreaksAdd(count - 1);
    }
  }

  lemma PlaceholderBreaks(index: nat, text: string)
    ensures LineBreaks(Placeholder(index, text)) == LineBreaks(text)
  {
    var digits, breaks := Digits(index), Breaks(LineBreaks(text));
    DigitsAreDigits(index);
    assert '\n' !in digits;
    BreaksAdd(LineBreaks(text));
    assert LineBreaks(digits) == 0;
    BreaksConcat([OPEN], digits);
    BreaksConcat([OPEN] + digits, breaks);
    BreaksConcat([OPEN] + digits + breaks, [CLOSE]);
  }

  /** Whatever the source holds, protecting keeps the number of its line breaks. */
  lemma {:induction false} KeepsLineBreaks(src: string, i: nat, index: nat)
    ensures LineBreaks(Code(Lex(src, i), index)) == LineBreaks(From(src, i))
    decreases |src| - i
  {
    hide TokenAt, TokenEnd, Lex, Code, Saved, Placeholder, From, LineBreaks;
    if i >= |src| {
      NoToken(src, i, index);
    } else {
      var token, e := TokenAt(src, i), TokenEnd(src, i);
      NextToken(src, i, index);
      SplitAtToken(src, i);
      BreaksConcat(token.text, From(src, e));
      if token.Plain? {
        KeepsLineBreaks(src, e, index);
        BreaksConcat(token.text, Code(Lex(src, e), index));
      } else {
        KeepsLineBreaks(src, e, index + 1);
        PlaceholderBreaks(index, token.text);
        BreaksConcat(Placeholder(index, token.text), Code(Lex(src, e), index + 1));
      }
    }
  }

  /** Restoring the protected code gives the source back exactly when the source is unambiguous. */
  lemma RoundTrip(src: string)
    ensures Restore(Code(Lex(src, 0), 0), Saved(Lex(src, 0))) == src <==> Unambiguous(src, 0)
    ensures OPEN !in src ==> Restore(Code(Lex(src, 0), 0), Saved(Lex(src, 0))) == src
  {
    hide Lex, Code, Saved, Restore, Unambiguous, Recognisable;
    var saved := Saved(Lex(src, 0));
    assert [] + saved == saved;
    SavedRecognisable(src, 0);
    RestoreFrom(src, 0, [], saved);
    assert src[0..] == src;
    if OPEN !in src {
      NoMarkNoAmbiguity(src, 0);
    }
  }

  /** A source that begins with what reads as a placeholder is not given back, whatever follows. */
  lemma MarkedSourceIsLost(digits: string, breaks: nat, rest: string)
    requires digits != "" && AllDigits(digits)
    ensures var src := [OPEN] + digits + Breaks(breaks) + [CLOSE] + rest;
            Restore(Code(Lex(src, 0), 0), Saved(Lex(src, 0))) != src
  {
    hide Lex, Code, Saved, Restore, Tail, Breaks;
    var src := [OPEN] + digits + Breaks(breaks) + [CLOSE] + rest;
    assert src[1..] == digits + (Breaks(breaks) + [CLOSE] + rest);
    TailOfDigits(digits, breaks, rest, 0);
    assert StartsPlaceholder(src);
    TokenCases(src, 0);
    SplitAtToken(src, 0);
    assert From(src, 0) == src;
    assert !Quiet(TokenAt(src, 0).text, From(src, TokenEnd(src, 0)));
    RoundTrip(src);
  }
}
