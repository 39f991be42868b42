/** Removal of // comments from a configuration text before it is read as JSON. */
module CommentStripper {

  datatype Mode = Mode(inString: bool, escaped: bool)

  const START: Mode := Mode(false, false)

  function Step(m: Mode, c: char): Mode {
    if m.escaped then Mode(m.inString, false)
    else if c == '\\' then Mode(m.inString, true)
    else if c == '"' then Mode(!m.inString, false)
    else m
  }

  function After(m: Mode, s: string): Mode
    decreases |s|
  {
    if s == [] then m else After(Step(m, s[0]), s[1..])
  }

  predicate OpensComment(m: Mode, s: string) {
    !m.inString && !m.escaped && |s| >= 2 && s[0] == '/' && s[1] == '/'
  }

  function NewlineAt(s: string): (k: nat)
    ensures k <= |s| && '\n' !in s[..k]
    ensures k < |s| ==> s[k] == '\n'
  {
    if s == [] || s[0] == '\n' then 0
    else
      var k := 1 + NewlineAt(s[1..]);
      assert s[..k] == [s[0]] + s[1..][..k - 1];
      k
  }

  /** Everything is kept but comments, and of a comment the newline that ends it. */
  function Strip(m: Mode, s: string): string
    decreases |s|
  {
    if s == [] then []
    else if OpensComment(m, s) then
      var k := NewlineAt(s);
      if k < |s| then ['\n'] + Strip(m, s[k + 1..]) else []
    else [s[0]] + Strip(Step(m, s[0]), s[1..])
  }

  /** What the text becomes when its first i characters have become the result. */
  ghost function Becomes(result: string, m: Mode, content: string, i: nat): string
    requires i <= |content|
  {
    result + Strip(m, content[i..])
  }

  lemma StripNext(result: string, m: Mode, content: string, i: nat)
    requires i < |content| && !OpensComment(m, content[i..])
    ensures Becomes(result, m, content, i) == Becomes(result + [content[i]], Step(m, content[i]), content, i + 1)
  {
    assert content[i..][1..] == content[i + 1..];
  }

  lemma StripOneComment(result: string, m: Mode, content: string, i: nat)
    requires i < |content| && OpensComment(m, content[i..])
    ensures var j := i + NewlineAt(content[i..]);
            Becomes(result, m, content, i) ==
            if j < |content| then Becomes(result + ['\n'], m, content, j + 1) else result
  {
    hide NewlineAt;
    var k := NewlineAt(content[i..]);
    if i + k < |content| {
      assert content[i..][k + 1..] == content[i + k + 1..];
    }
  }

  method StripComments(content: string) returns (result: string)
    ensures result == Strip(START, content)
  {
    hide Becomes, Strip, NewlineAt;
    result := [];
    var inString, escaped := false, false;
    var i := 0;
    NothingStripped(content);
    while i < |content|
      invariant i <= |content|
      invariant Strip(START, content) == Becomes(result, Mode(inString, escaped), content, i)
    {
      var c := content[i];
      ghost var m := Mode(inString, escaped);
      if !OpensComment(m, content[i..]) {
        StripNext(result, m, content, i);
      }
      if escaped {
        escaped := false;
        result := result + [c];
        i := i + 1;
        continue;
      }
      if c == '\\' {
        escaped := true;
        result := result + [c];
        i := i + 1;
        continue;
      }
      if c == '"' {
        inString := !inString;
        result := result + [c];
        i := i + 1;
        continue;
      }
      if !inString && c == '/' && i + 1 < |content| && content[i + 1] == '/' {
        StripOneComment(result, m, content, i);
        i := SkipToNewline(content, i);
        if i < |content| {
          result := result + ['\n'];
          i := i + 1;
        } else {
          NothingToStrip(result, Mode(inString, escaped), content);
        }
      } else {
        result := result + [c];
        i := i + 1;
      }
    }
    NothingToStrip(result, Mode(inString, escaped), content);
  }

  lemma NothingStripped(content: string)
    ensures Becomes([], START, content, 0) == Strip(START, content)
  {
    assert content[0..] == content;
  }

  lemma NothingToStrip(result: string, m: Mode, content: string)
    ensures Becomes(result, m, content, |content|) == result
  {
  }

  method SkipToNewline(content: string, start: nat) returns (i: nat)
    requires start <= |content|
    ensures start <= i <= |content| && i == start + NewlineAt(content[start..])
  {
    i := start;
    while i < |content| && content[i] != '\n'
      invariant start <= i <= |content|
      invariant start + NewlineAt(content[start..]) == i + NewlineAt(content[i..])
    {
      assert content[i..][1..] == content[i + 1..];
      i := i + 1;
    }
  }

  // ---- No comment is left, and nothing else is lost ----

  /** No two slashes stand together where they would open a comment. */
  ghost predicate Clean(m: Mode, s: string) {
    forall i :: 0 <= i < |s| ==> !OpensComment(After(m, s[..i]), s[i..])
  }

  lemma CleanByFirst(m: Mode, s: string)
    requires s != []
    ensures Clean(m, s) <==> !OpensComment(m, s) && Clean(Step(m, s[0]), s[1..])
  {
    hide OpensComment, Step;
    var rest := s[1..];
    forall i | 0 <= i < |rest|
      ensures OpensComment(After(Step(m, s[0]), rest[..i]), rest[i..]) <==> OpensComment(After(m, s[..i + 1]), s[i + 1..])
    {
      assert s[..i + 1][1..] == rest[..i] && s[i + 1..] == rest[i..];
    }
    assert s[..0] == [] && s[0..] == s;
    if Clean(m, s) {
      assert !OpensComment(After(m, s[..0]), s[0..]);
    }
    if !OpensComment(m, s) && Clean(Step(m, s[0]), rest) {
      forall i | 0 <= i < |s|
        ensures !OpensComment(After(m, s[..i]), s[i..])
      {
        if i > 0 {
          assert !OpensComment(After(Step(m, s[0]), rest[..i - 1]), rest[i - 1..]);
        }
      }
    }
  }

  /** What follows a slash is still not a slash. */
  lemma HeadIsKept(m: Mode, s: string)
    ensures s == [] || s[0] != '/' ==> Strip(m, s) == [] || Strip(m, s)[0] != '/'
  {
  }

  lemma {:induction false} StripLeavesNoComment(m: Mode, s: string)
    ensures Clean(m, Strip(m, s))
    decreases |s|
  {
    hide Clean;
    if s == [] {
      NothingIsClean(m);
    } else if OpensComment(m, s) {
      var k := NewlineAt(s);
      if k < |s| {
        StripLeavesNoComment(m, s[k + 1..]);
        CleanByFirst(m, Strip(m, s));
        assert Strip(m, s)[1..] == Strip(m, s[k + 1..]);
      } else {
        NothingIsClean(m);
      }
    } else {
      StripLeavesNoComment(Step(m, s[0]), s[1..]);
      HeadIsKept(Step(m, s[0]), s[1..]);
      CleanByFirst(m, Strip(m, s));
      assert Strip(m, s)[1..] == Strip(Step(m, s[0]), s[1..]);
    }
  }

  lemma NothingIsClean(m: Mode)
    ensures Clean(m, [])
  {
  }

  lemma {:induction false} CleanIsKept(m: Mode, s: string)
    requires Clean(m, s)
    ensures Strip(m, s) == s
    decreases |s|
  {
    if s != [] {
      CleanByFirst(m, s);
      CleanIsKept(Step(m, s[0]), s[1..]);
    }
  }

  /** The result has no comment, stripping it again changes nothing, and a text is left
      as it is iff it had no comment. */
  lemma StripIsIdempotent(s: string)
    ensures Clean(START, Strip(START, s))
    ensures Strip(START, Strip(START, s)) == Strip(START, s)
    ensures Strip(START, s) == s <==> Clean(START, s)
  {
    hide Clean, Strip;
    StripLeavesNoComment(START, s);
    CleanIsKept(START, Strip(START, s));
    if Clean(START, s) {
      CleanIsKept(START, s);
    }
  }

  function Newlines(s: string): nat {
    if s == [] then 0 else (if s[0] == '\n' then 1 else 0) + Newlines(s[1..])
  }

  lemma {:induction false} NewlinesAfter(s: string, k: nat)
    requires k <= |s| && '\n' !in s[..k]
    ensures Newlines(s) == Newlines(s[k..])
  {
    if k > 0 {
      assert s[..k][0] == s[0] && s[..k][1..] == s[1..][..k - 1];
      NewlinesAfter(s[1..], k - 1);
      assert s[1..][k - 1..] == s[k..];
    } else {
      assert s[0..] == s;
    }
  }

  /** Lines keep their numbers, so that a later error can name the right one. */
  lemma {:induction false} NewlinesAreKept(m: Mode, s: string)
    ensures Newlines(Strip(m, s)) == Newlines(s)
    decreases |s|
  {
    if s == [] {
    } else if OpensComment(m, s) {
      var k := NewlineAt(s);
      NewlinesAfter(s, k);
      if k < |s| {
        NewlinesAreKept(m, s[k + 1..]);
        assert s[k..][1..] == s[k + 1..];
        assert Strip(m, s)[1..] == Strip(m, s[k + 1..]);
      }
    } else {
      NewlinesAreKept(Step(m, s[0]), s[1..]);
      assert Strip(m, s)[1..] == Strip(Step(m, s[0]), s[1..]);
    }
  }

  predicate IsSubsequence(a: string, b: string)
    decreases |b|
  {
    a == [] || (b != [] && ((a[0] == b[0] && IsSubsequence(a[1..], b[1..])) || IsSubsequence(a, b[1..])))
  }

  lemma {:induction false} SubsequenceOfLater(a: string, b: string, k: nat)
    requires k <= |b| && IsSubsequence(a, b[k..])
    ensures IsSubsequence(a, b)
  {
    if k > 0 {
      assert b[1..][k - 1..] == b[k..];
      SubsequenceOfLater(a, b[1..], k - 1);
    } else {
      assert b[0..] == b;
    }
  }

  lemma {:induction false} StripOnlyRemoves(m: Mode, s: string)
    ensures IsSubsequence(Strip(m, s), s)
    decreases |s|
  {
    if s == [] {
    } else if OpensComment(m, s) {
      var k := NewlineAt(s);
      if k < |s| {
        StripOnlyRemoves(m, s[k + 1..]);
        assert Strip(m, s)[1..] == Strip(m, s[k + 1..]) && s[k..][1..] == s[k + 1..];
        SubsequenceOfLater(Strip(m, s), s, k);
      }
    } else {
      StripOnlyRemoves(Step(m, s[0]), s[1..]);
      assert Strip(m, s)[1..] == Strip(Step(m, s[0]), s[1..]);
    }
  }

  // ---- What is kept and what is dropped ----

  /** Text that opens no comment, not even together with what follows it, is copied. */
  lemma {:induction false} CleanTextIsCopied(m: Mode, p: string, rest: string)
    requires Clean(m, p + (if rest == [] then [] else [rest[0]]))
    ensures Strip(m, p + rest) == p + Strip(After(m, p), rest)
    decreases |p|
  {
    var first := if rest == [] then [] else [rest[0]];
    if p == [] {
      assert p + rest == rest;
    } else {
      CleanByFirst(m, p + first);
      assert (p + first)[1..] == p[1..] + first && (p + rest)[1..] == p[1..] + rest;
      CleanTextIsCopied(Step(m, p[0]), p[1..], rest);
    }
  }

  /** A body of a string literal: it never leaves the string, and ends unescaped. */
  ghost predicate IsLiteralBody(body: string) {
    && (forall i :: 0 <= i <= |body| ==> After(Mode(true, false), body[..i]).inString)
    && After(Mode(true, false), body) == Mode(true, false)
  }

  lemma {:induction false} AfterConcat(m: Mode, a: string, b: string)
    ensures After(m, a + b) == After(After(m, a), b)
    decreases |a|
  {
    if a == [] {
      assert a + b == b;
    } else {
      assert (a + b)[1..] == a[1..] + b;
      AfterConcat(Step(m, a[0]), a[1..], b);
    }
  }

  lemma CleanInString(body: string)
    requires IsLiteralBody(body)
    ensures Clean(Mode(true, false), body + ['"'])
  {
    var s := body + ['"'];
    forall i | 0 <= i < |s|
      ensures !OpensComment(After(Mode(true, false), s[..i]), s[i..])
    {
      assert s[..i] == body[..i];
    }
  }

  /** Between code without comments, a string literal is copied whatever it contains. */
  lemma LiteralsAreCopied(p: string, body: string, rest: string)
    requires Clean(START, p) && After(START, p) == START && IsLiteralBody(body)
    ensures Strip(START, p + ['"'] + body + ['"'] + rest) == p + ['"'] + body + ['"'] + Strip(START, rest)
  {
    hide IsLiteralBody, Clean, Strip;
    var tail := body + ['"'] + rest;
    CleanBeforeOther(START, p, '"');
    CleanTextIsCopied(START, p, ['"'] + tail);
    CodeStep('"', tail);
    CleanInString(body);
    CleanTextIsCopied(Mode(true, false), body, ['"'] + rest);
    BodyEnds(body);
    ClosingStep(rest);
    assert p + ['"'] + body + ['"'] + rest == p + (['"'] + tail);
    assert tail == body + (['"'] + rest);
    assert p + (['"'] + (body + (['"'] + Strip(START, rest)))) == p + ['"'] + body + ['"'] + Strip(START, rest);
  }

  lemma BodyEnds(body: string)
    requires IsLiteralBody(body)
    ensures After(Mode(true, false), body) == Mode(true, false)
  {
  }

  lemma CodeStep(c: char, rest: string)
    requires c == '"'
    ensures Strip(START, [c] + rest) == [c] + Strip(Mode(true, false), rest)
  {
    assert ([c] + rest)[1..] == rest;
  }

  lemma ClosingStep(rest: string)
    ensures Strip(Mode(true, false), ['"'] + rest) == ['"'] + Strip(START, rest)
  {
    assert (['"'] + rest)[1..] == rest;
  }

  lemma CleanBeforeOther(m: Mode, p: string, c: char)
    requires Clean(m, p) && c != '/'
    ensures Clean(m, p + [c])
  {
    var s := p + [c];
    forall i | 0 <= i < |s|
      ensures !OpensComment(After(m, s[..i]), s[i..])
    {
      assert s[..i] == p[..i];
      if i < |p| {
        assert !OpensComment(After(m, p[..i]), p[i..]);
        assert s[i..] == p[i..] + [c];
      }
    }
  }

  /** After code without comments, a comment goes up to its newline, or to the end. */
  lemma CommentsAreDropped(p: string, text: string, rest: string)
    requires Clean(START, p + "/") && After(START, p) == START && '\n' !in text
    ensures Strip(START, p + ("//" + text + "\n" + rest)) == p + "\n" + Strip(START, rest)
    ensures Strip(START, p + ("//" + text)) == p
  {
    hide Clean, Strip;
    CleanTextIsCopied(START, p, "//" + text + "\n" + rest);
    CleanTextIsCopied(START, p, "//" + text);
    OneComment(text, rest);
    assert p + "\n" + Strip(START, rest) == p + ("\n" + Strip(START, rest));
  }

  lemma OneComment(text: string, rest: string)
    requires '\n' !in text
    ensures Strip(START, "//" + text + "\n" + rest) == "\n" + Strip(START, rest)
    ensures Strip(START, "//" + text) == []
  {
    var c := "//" + text;
    assert c + "\n" + rest == c + ("\n" + rest);
    NewlineAfter(c, "\n" + rest);
    NewlineAfter(c, []);
    assert c + [] == c;
    assert (c + ("\n" + rest))[|c| + 1..] == rest;
  }

  lemma {:induction false} NewlineAfter(s: string, rest: string)
    requires '\n' !in s
    ensures NewlineAt(s + rest) == |s| + NewlineAt(rest)
  {
    if s == [] {
      assert s + rest == rest;
    } else {
      assert (s + rest)[1..] == s[1..] + rest;
      NewlineAfter(s[1..], rest);
    }
  }

  // ---- Whole texts ----

  /** A piece of a configuration text: code, a string literal, or a comment with its newline. */
  datatype Item = Code(text: string) | Literal(body: string) | Comment(text: string)

  function Written(item: Item): string {
    match item
    case Code(text) => text
    case Literal(body) => ['"'] + body + ['"']
    case Comment(text) => "//" + text + "\n"
  }

  function Kept(item: Item): string {
    if item.Comment? then "\n" else Written(item)
  }

  function AllWritten(items: seq<Item>): string {
    if items == [] then [] else Written(items[0]) + AllWritten(items[1..])
  }

  function AllKept(items: seq<Item>): string {
    if items == [] then [] else Kept(items[0]) + AllKept(items[1..])
  }

  /** Code opens no comment, not even with a slash behind it, and no literal. */
  ghost predicate IsItem(item: Item) {
    match item
    case Code(text) => Clean(START, text + ['/']) && After(START, text) == START
    case Literal(body) => IsLiteralBody(body)
    case Comment(text) => '\n' !in text
  }

  lemma CleanPart(m: Mode, p: string, c: char)
    requires Clean(m, p + [c])
    ensures Clean(m, p)
  {
    forall i | 0 <= i < |p|
      ensures !OpensComment(After(m, p[..i]), p[i..])
    {
      assert !OpensComment(After(m, (p + [c])[..i]), (p + [c])[i..]);
      assert (p + [c])[..i] == p[..i] && (p + [c])[i..] == p[i..] + [c];
    }
  }

  lemma CodeIsCopied(text: string, rest: string)
    requires Clean(START, text + ['/']) && After(START, text) == START
    ensures Strip(START, text + rest) == text + Strip(START, rest)
  {
    hide Clean, Strip;
    CleanPart(START, text, '/');
    if rest == [] {
      assert text + [] == text;
    } else if rest[0] != '/' {
      CleanBeforeOther(START, text, rest[0]);
    }
    CleanTextIsCopied(START, text, rest);
  }

  lemma ItemIsStripped(item: Item, rest: string)
    requires IsItem(item)
    ensures Strip(START, Written(item) + rest) == Kept(item) + Strip(START, rest)
  {
    hide Clean, Strip, After, IsLiteralBody;
    match item
    case Code(text) => CodeIsCopied(text, rest);
    case Literal(body) =>
      EmptyCode();
      LiteralsAreCopied([], body, rest);
      assert [] + ['"'] + body + ['"'] + rest == Written(item) + rest;
    case Comment(text) => OneComment(text, rest);
  }

  lemma EmptyCode()
    ensures Clean(START, []) && After(START, []) == START
  {
  }

  /** Of every text made of code, literals and comments, in any order and number, exactly the
      comments go, each up to its newline; what follows is stripped as if alone. */
  lemma {:induction false} ExactlyTheCommentsGo(items: seq<Item>, rest: string)
    requires forall item :: item in items ==> IsItem(item)
    ensures Strip(START, AllWritten(items) + rest) == AllKept(items) + Strip(START, rest)
  {
    hide Strip, Written, Kept, IsItem;
    if items == [] {
      assert [] + rest == rest;
    } else {
      var first, tail := items[0], items[1..];
      ItemIsStripped(first, AllWritten(tail) + rest);
      ExactlyTheCommentsGo(tail, rest);
      assert AllWritten(items) + rest == Written(first) + (AllWritten(tail) + rest);
      assert Kept(first) + (AllKept(tail) + Strip(START, rest)) == AllKept(items) + Strip(START, rest);
    }
  }

  // ---- Which texts are code, and which are literals ----

  /** What a string literal is made of: characters that are neither a quote nor a backslash, and
      any characters after a backslash. */
  datatype Piece = Plain(c: char) | Escaped(c: char)

  predicate IsPiece(piece: Piece) {
    piece.Plain? ==> piece.c != '"' && piece.c != '\\'
  }

  function PieceText(piece: Piece): string {
    match piece
    case Plain(c) => [c]
    case Escaped(c) => ['\\', c]
  }

  function Body(pieces: seq<Piece>): string {
    if pieces == [] then [] else PieceText(pieces[0]) + Body(pieces[1..])
  }

  const IN_STRING: Mode := Mode(true, false)

  lemma OnePiece(piece: Piece, i: nat)
    requires IsPiece(piece) && i <= |PieceText(piece)|
    ensures After(IN_STRING, PieceText(piece)[..i]).inString
    ensures After(IN_STRING, PieceText(piece)) == IN_STRING
  {
    var text := PieceText(piece);
    assert text[..0] == [] && text[..|text|] == text;
    if piece.Escaped? {
      assert text[..1] == ['\\'] && text == ['\\'] + [piece.c];
      AfterConcat(IN_STRING, ['\\'], [piece.c]);
    }
  }

  lemma {:induction false} BodyStaysInString(pieces: seq<Piece>, i: nat)
    requires (forall piece :: piece in pieces ==> IsPiece(piece)) && i <= |Body(pieces)|
    ensures After(IN_STRING, Body(pieces)[..i]).inString
    ensures After(IN_STRING, Body(pieces)) == IN_STRING
    decreases |pieces|
  {
    hide After, IsPiece, PieceText, IN_STRING;
    if pieces == [] {
      EmptyInString();
      assert Body(pieces)[..i] == [];
    } else {
      var first, rest := PieceText(pieces[0]), Body(pieces[1..]);
      assert pieces[0] in pieces;
      OnePiece(pieces[0], if i < |first| then i else |first|);
      BodyStaysInString(pieces[1..], if i < |first| then 0 else i - |first|);
      AfterConcat(IN_STRING, first, rest);
      if i < |first| {
        assert Body(pieces)[..i] == first[..i];
      } else {
        AfterConcat(IN_STRING, first, rest[..i - |first|]);
        assert Body(pieces)[..i] == first + rest[..i - |first|];
      }
    }
  }

  lemma EmptyInString()
    ensures After(IN_STRING, []) == IN_STRING && IN_STRING.inString
  {
  }

  /** Every such text between two quotes is a literal, quotes and slashes in it or not. */
  lemma PiecesMakeALiteral(pieces: seq<Piece>)
    requires forall piece :: piece in pieces ==> IsPiece(piece)
    ensures IsItem(Literal(Body(pieces)))
  {
    hide After;
    BodyStaysInString(pieces, 0);
    forall i | 0 <= i <= |Body(pieces)|
      ensures After(Mode(true, false), Body(pieces)[..i]).inString
    {
      BodyStaysInString(pieces, i);
    }
  }

  lemma {:induction false} PlainStaysInCode(text: string)
    requires forall c :: c in text ==> c != '"' && c != '\\'
    ensures After(START, text) == START
  {
    if text != [] {
      assert text[0] in text && forall c :: c in text[1..] ==> c in text;
      PlainStaysInCode(text[1..]);
    }
  }

  /** Text without quotes and backslashes, in which no two slashes meet and that does not end in
      one, is code. */
  lemma PlainTextIsCode(text: string)
    requires forall c :: c in text ==> c != '"' && c != '\\'
    requires (forall i :: 0 <= i < |text| - 1 ==> !(text[i] == '/' && text[i + 1] == '/')) && (text == [] || text[|text| - 1] != '/')
    ensures IsItem(Code(text))
  {
    PlainStaysInCode(text);
    var s := text + ['/'];
    forall i | 0 <= i < |s|
      ensures !OpensComment(After(START, s[..i]), s[i..])
    {
      if i < |text| {
        assert s[i..][0] == text[i] && s[i..][1] == (if i + 1 < |text| then text[i + 1] else '/');
      }
    }
  }
}
