/** The tokenizer against a description of token spelling that does no scanning. */
module LexerFacts {
  import opened Common
  import opened Lexer

  // ---- How tokens may be spelled ----

  ghost predicate IsName(s: string) {
    s != "" && !IsDigit(s[0]) && forall i :: 0 <= i < |s| ==> IsWordChar(s[i])
  }

  /** Digits, or digits on both sides of one dot. */
  ghost predicate IsUnsigned(s: string) {
    && s != "" && IsDigit(s[0])
    && (AllDigits(s) || exists k :: DotAt(s, k))
  }

  ghost predicate DotAt(s: string, k: int) {
    0 <= k < |s| - 1 && s[k] == '.' && AllDigits(s[..k]) && AllDigits(s[k + 1..])
  }

  ghost predicate IsNumber(s: string) {
    IsUnsigned(s) || (s != "" && s[0] == '-' && IsUnsigned(s[1..]))
  }

  function Mark(c: char): (r: string) {
    if c == '\'' then "''" else [c]
  }

  /** The text of a string literal with every quote doubled. */
  function Doubled(s: string): (r: string) {
    if s == "" then "" else Mark(s[0]) + Doubled(s[1..])
  }

  ghost predicate Spells(text: string, t: Token) {
    match t
    case Identifier(name) => text == name && IsName(name) && KeywordOf(name) == None
    case Keyword(k) => UpperCase(text) == KeywordName(k)
    case Text(v) => text == "'" + Doubled(v) + "'"
    case Number(d) => text == d && IsNumber(d)
    case Comma => text == ","
    case LParen => text == "("
    case RParen => text == ")"
    case Semicolon => text == ";"
    case Star => text == "*"
    case Equal => text == "="
    case End => false
  }

  /** The next character would be read as part of the token. */
  ghost predicate Glues(t: Token, c: char) {
    match t
    case Identifier(_) => IsWordChar(c)
    case Keyword(_) => IsWordChar(c)
    case Text(_) => c == '\''
    case Number(d) => IsDigit(c) || (c == '.' && '.' !in d)
    case _ => false
  }

  ghost predicate Separate(t: Token, rest: string) {
    rest == "" || !Glues(t, rest[0])
  }

  // ---- Characters ----

  const LOWER: string := "abcdefghijklmnopqrstuvwxyz"
  const UPPER: string := "ABCDEFGHIJKLMNOPQRSTUVWXYZ"
  const DIGITS: string := "0123456789"

  lemma LowerAt(k: nat)
    requires k < 26
    ensures LOWER[k] as int == 'a' as int + k
  {
  }

  lemma UpperAt(k: nat)
    requires k < 26
    ensures UPPER[k] as int == 'A' as int + k
  {
  }

  lemma DigitAt(k: nat)
    requires k < 10
    ensures DIGITS[k] as int == '0' as int + k
  {
  }

  /** The character is the k-th of the list. */
  ghost predicate Nth(list: string, c: char, k: int) {
    0 <= k < |list| && list[k] == c
  }

  /** The classes by their members: six spaces; letters, digits and the underscore in words. */
  lemma CharacterClasses(c: char)
    ensures IsSpace(c) <==> c in [' ', '\t', '\n', 11 as char, 12 as char, '\r']
    ensures IsDigit(c) <==> exists k :: Nth(DIGITS, c, k)
    ensures IsWordChar(c) <==> (exists k :: Nth(LOWER, c, k)) || (exists k :: Nth(UPPER, c, k)) || IsDigit(c) || c == '_'
  {
    hide LOWER, UPPER, DIGITS;
    ListLengths();
    forall k | 0 <= k < 26 ensures Nth(LOWER, c, k) <==> c as int == 'a' as int + k {
      LowerAt(k);
    }
    forall k | 0 <= k < 26 ensures Nth(UPPER, c, k) <==> c as int == 'A' as int + k {
      UpperAt(k);
    }
    forall k | 0 <= k < 10 ensures Nth(DIGITS, c, k) <==> c as int == '0' as int + k {
      DigitAt(k);
    }
    if 'a' <= c <= 'z' {
      assert Nth(LOWER, c, c as int - 'a' as int);
    }
    if 'A' <= c <= 'Z' {
      assert Nth(UPPER, c, c as int - 'A' as int);
    }
    if '0' <= c <= '9' {
      assert Nth(DIGITS, c, c as int - '0' as int);
    }
  }

  lemma ListLengths()
    ensures |LOWER| == 26 && |UPPER| == 26 && |DIGITS| == 10
  {
  }

  /** Upper case is taken letter by letter, and of letters only. */
  lemma UpperExact(c: char, k: int)
    ensures Nth(LOWER, c, k) ==> Nth(UPPER, Upper(c), k)
    ensures Upper(c) == c || exists k :: Nth(LOWER, c, k)
  {
    hide LOWER, UPPER;
    ListLengths();
    if 0 <= k < 26 {
      LowerAt(k);
      UpperAt(k);
    }
    if 'a' <= c <= 'z' {
      LowerAt(c as int - 'a' as int);
      assert Nth(LOWER, c, c as int - 'a' as int);
    }
  }

  // ---- Words ----

  lemma {:induction false} WordRun(w: string, rest: string)
    requires forall i :: 0 <= i < |w| ==> IsWordChar(w[i])
    requires rest == "" || !IsWordChar(rest[0])
    ensures WordLength(w + rest) == |w|
  {
    if w == "" {
      assert w + rest == rest;
    } else {
      assert (w + rest)[1..] == w[1..] + rest;
      WordRun(w[1..], rest);
    }
  }

  lemma {:induction false} WordRuns(s: string)
    ensures forall i :: 0 <= i < WordLength(s) ==> IsWordChar(s[i])
    ensures WordLength(s) == |s| || !IsWordChar(s[WordLength(s)])
  {
    if s != "" && IsWordChar(s[0]) {
      WordRuns(s[1..]);
      assert forall i :: 0 < i < WordLength(s) ==> s[i] == s[1..][i - 1];
    }
  }

  lemma KeywordIsName(text: string, k: Kw)
    requires UpperCase(text) == KeywordName(k)
    ensures IsName(text)
  {
    var u := UpperCase(text);
    forall i | 0 <= i < |text| ensures IsAlpha(text[i]) {
      assert IsAlpha(KeywordName(k)[i]);
      assert u[i] == Upper(text[i]);
    }
  }

  // ---- Numbers ----

  lemma {:induction false} DigitsRun(d: string, rest: string, seenDot: bool)
    requires AllDigits(d)
    ensures NumberLength(d + rest, seenDot) == Longer(NumberLength(rest, seenDot), |d|)
  {
    if d == "" {
      assert d + rest == rest;
    } else {
      assert (d + rest)[1..] == d[1..] + rest;
      DigitsRun(d[1..], rest, seenDot);
    }
  }

  ghost predicate Shape(s: string, seenDot: bool) {
    AllDigits(s) || (!seenDot && exists k :: DotAt(s, k))
  }

  lemma DotStep(part: string, rest: string)
    requires AllDigits(part) && part != ""
    requires rest == "" || !IsDigit(rest[0])
    ensures NumberLength(['.'] + (part + rest), false) == Some(1 + |part|)
  {
    var s := ['.'] + (part + rest);
    assert s[1..] == part + rest;
    assert s[1] == part[0];
    DigitsRun(part, rest, true);
    assert NumberLength(rest, true) == Some(0);
  }

  lemma DottedRun(whole: string, part: string, rest: string)
    requires AllDigits(whole) && AllDigits(part) && part != ""
    requires rest == "" || !IsDigit(rest[0])
    ensures NumberLength(whole + (['.'] + (part + rest)), false) == Some(|whole| + 1 + |part|)
  {
    hide NumberLength;
    DotStep(part, rest);
    DigitsRun(whole, ['.'] + (part + rest), false);
  }

  lemma NumberStops(rest: string, seenDot: bool)
    requires rest == "" || (!IsDigit(rest[0]) && (rest[0] == '.' ==> seenDot))
    ensures NumberLength(rest, seenDot) == Some(0)
  {
  }

  lemma NumberRun(d: string, rest: string)
    requires Shape(d, false) && Separate(Number(d), rest)
    ensures NumberLength(d + rest, false) == Some(|d|)
  {
    hide NumberLength;
    if AllDigits(d) {
      NumberStops(rest, false);
      DigitsRun(d, rest, false);
    } else {
      var k :| DotAt(d, k);
      assert d[k] == '.' && '.' in d;
      DottedRun(d[..k], d[k + 1..], rest);
      assert d + rest == d[..k] + (['.'] + (d[k + 1..] + rest));
    }
  }

  lemma {:induction false} NumberRuns(s: string, seenDot: bool)
    requires NumberLength(s, seenDot).Some?
    ensures var n := NumberLength(s, seenDot).value;
            Shape(s[..n], seenDot) && (n == |s| || (!IsDigit(s[n]) && (s[n] == '.' ==> seenDot || '.' in s[..n])))
  {
    var n := NumberLength(s, seenDot).value;
    if s != "" && IsDigit(s[0]) {
      NumberRuns(s[1..], seenDot);
      var t := s[1..][..n - 1];
      assert s[..n] == [s[0]] + t;
      ShapeGrows(s[0], t, seenDot);
    } else if s != "" && s[0] == '.' && !seenDot {
      NumberRuns(s[1..], true);
      assert s[..n] == ['.'] + s[1..][..n - 1];
      assert s[..n][1..] == s[1..][..n - 1];
      assert DotAt(s[..n], 0);
    }
  }

  lemma ShapeGrows(c: char, t: string, seenDot: bool)
    requires IsDigit(c) && Shape(t, seenDot)
    ensures Shape([c] + t, seenDot)
  {
    if !AllDigits(t) {
      var k :| DotAt(t, k);
      assert ([c] + t)[..k + 1] == [c] + t[..k];
      assert ([c] + t)[k + 2..] == t[k + 1..];
      assert DotAt([c] + t, k + 1);
    }
  }

  // ---- Strings ----

  lemma UnquoteMark(c: char, tail: string)
    ensures Unquote(Mark(c) + tail) == Prefixed(c, Unquote(tail), |Mark(c)|)
  {
    var s := Mark(c) + tail;
    assert s[|Mark(c)|..] == tail;
  }

  lemma {:induction false} UnquoteDoubled(v: string, rest: string)
    requires rest == "" || rest[0] != '\''
    ensures Unquote(Doubled(v) + "'" + rest) == Some(Quoted(v, |Doubled(v)| + 1))
  {
    hide Unquote, Mark;
    if v == "" {
      UnquoteEnd(rest);
      assert Doubled(v) + "'" + rest == "'" + rest;
    } else {
      var tail := Doubled(v[1..]) + "'" + rest;
      UnquoteDoubled(v[1..], rest);
      UnquoteMark(v[0], tail);
      assert Doubled(v) + "'" + rest == Mark(v[0]) + tail;
      assert v == [v[0]] + v[1..];
    }
  }

  lemma UnquoteEnd(rest: string)
    requires rest == "" || rest[0] != '\''
    ensures Unquote("'" + rest) == Some(Quoted("", 1))
  {
  }

  lemma {:induction false} UnquoteSound(s: string)
    requires Unquote(s).Some?
    ensures var q := Unquote(s).value;
            s[..q.length] == Doubled(q.value) + "'" && (q.length == |s| || s[q.length] != '\'')
  {
    hide Doubled;
    if s[0] != '\'' {
      UnquoteSound(s[1..]);
      UnquoteSoundStep(s[0], s[1..]);
      assert s == Mark(s[0]) + s[1..];
    } else if |s| > 1 && s[1] == '\'' {
      UnquoteSound(s[2..]);
      UnquoteSoundStep('\'', s[2..]);
      assert s == Mark('\'') + s[2..];
    } else {
      assert Doubled("") == "" by { DoubledEmpty(); }
    }
  }

  lemma DoubledEmpty()
    ensures Doubled("") == ""
  {
  }

  lemma DoubledCons(c: char, v: string)
    ensures Doubled([c] + v) == Mark(c) + Doubled(v)
  {
    assert ([c] + v)[1..] == v;
  }

  lemma UnquoteSoundStep(c: char, tail: string)
    requires Unquote(tail).Some?
    requires tail[..Unquote(tail).value.length] == Doubled(Unquote(tail).value.value) + "'"
    ensures Unquote(Mark(c) + tail) == Prefixed(c, Unquote(tail), |Mark(c)|)
    ensures var q := Unquote(Mark(c) + tail).value; (Mark(c) + tail)[..q.length] == Doubled(q.value) + "'"
  {
    hide Unquote, Mark, Doubled;
    var q := Unquote(tail).value;
    UnquoteMark(c, tail);
    DoubledCons(c, q.value);
    assert (Mark(c) + tail)[..|Mark(c)| + q.length] == Mark(c) + tail[..q.length];
  }

  // ---- One token: scanning inverts spelling, both ways ----

  lemma SpellingStarts(text: string, t: Token)
    requires Spells(text, t)
    ensures text != "" && !IsSpace(text[0])
  {
    if t.Keyword? {
      KeywordIsName(text, t.kw);
    }
  }

  lemma ScanWord(text: string, t: Token, rest: string)
    requires Spells(text, t) && Separate(t, rest) && (t.Identifier? || t.Keyword?)
    ensures Scan(text + rest) == Some(Scanned(t, |text|))
  {
    if t.Keyword? {
      KeywordIsName(text, t.kw);
    }
    WordRun(text, rest);
    assert (text + rest)[..|text|] == text;
  }

  function SignLength(text: string): (n: nat)
    ensures n <= |text|
  {
    if text != "" && text[0] == '-' then 1 else 0
  }

  /** What follows the sign of a number. */
  lemma NumberBody(text: string)
    requires IsNumber(text)
    ensures var body := text[SignLength(text)..]; body != "" && IsDigit(body[0]) && Shape(body, false)
  {
    assert text[0..] == text;
  }

  lemma SeparateBody(text: string, rest: string)
    requires Separate(Number(text), rest)
    ensures Separate(Number(text[SignLength(text)..]), rest)
  {
    var n := SignLength(text);
    if '.' in text {
      var i :| 0 <= i < |text| && text[i] == '.';
      assert text[n..][i - n] == '.';
    }
  }

  /** A text whose number has the given length is scanned as that number. */
  lemma ScanIsNumber(s: string, n: nat)
    requires s != "" && SignLength(s) <= n <= |s| && SignLength(s) < |s| && IsDigit(s[SignLength(s)])
    requires NumberLength(s[SignLength(s)..], false) == Some(n - SignLength(s))
    ensures Scan(s) == Some(Scanned(Number(s[..n]), n))
  {
    hide NumberLength, ScanNumber, WordLength, WordToken, Unquote;
    ScanNumberIs(s, SignLength(s), Some(n - SignLength(s)));
  }

  lemma ScanNumberText(text: string, rest: string)
    requires IsNumber(text) && Separate(Number(text), rest)
    ensures Scan(text + rest) == Some(Scanned(Number(text), |text|))
  {
    hide NumberLength, Scan, Shape, Separate, IsNumber;
    var s, sign := text + rest, SignLength(text);
    NumberBody(text);
    SeparateBody(text, rest);
    assert s[sign..] == text[sign..] + rest;
    NumberRun(text[sign..], rest);
    ScanIsNumber(s, |text|);
    assert s[..|text|] == text;
  }

  lemma ScanText(v: string, rest: string)
    requires rest == "" || rest[0] != '\''
    ensures Scan("'" + Doubled(v) + "'" + rest) == Some(Scanned(Text(v), |Doubled(v)| + 2))
  {
    hide Unquote, Doubled;
    var s := "'" + Doubled(v) + "'" + rest;
    assert s[1..] == Doubled(v) + "'" + rest;
    UnquoteDoubled(v, rest);
  }

  lemma ScanSpelled(text: string, t: Token, rest: string)
    requires Spells(text, t) && Separate(t, rest)
    ensures Scan(text + rest) == Some(Scanned(t, |text|))
  {
    match t {
      case Identifier(_) => ScanWord(text, t, rest);
      case Keyword(_) => ScanWord(text, t, rest);
      case Number(_) => ScanNumberText(text, rest);
      case Text(v) => ScanText(v, rest);
      case _ =>
    }
  }

  lemma WordSound(s: string)
    requires s != "" && (IsAlpha(s[0]) || s[0] == '_')
    ensures var text := s[..WordLength(s)];
            Spells(text, WordToken(text)) && Separate(WordToken(text), s[WordLength(s)..])
  {
    hide KeywordOf, UpperCase, WordLength;
    WordRuns(s);
    WordNotEmpty(s);
    var text := s[..WordLength(s)];
    assert forall i :: 0 <= i < |text| ==> text[i] == s[i];
    KeywordExact(text);
  }

  lemma WordNotEmpty(s: string)
    requires s != "" && IsWordChar(s[0])
    ensures WordLength(s) > 0
  {
  }

  lemma KeywordExact(text: string)
    ensures KeywordOf(text).Some? ==> UpperCase(text) == KeywordName(KeywordOf(text).value)
  {
  }

  lemma TextSound(s: string, q: Quoted)
    requires s != "" && s[0] == '\'' && Unquote(s[1..]) == Some(q)
    ensures Spells(s[..1 + q.length], Text(q.value)) && Separate(Text(q.value), s[1 + q.length..])
  {
    hide Unquote, Doubled;
    UnquoteSound(s[1..]);
    assert s[..1 + q.length] == "'" + s[1..][..q.length];
  }

  lemma ScanSound(s: string)
    requires s != "" && Scan(s).Some?
    ensures var x := Scan(s).value; Spells(s[..x.length], x.token) && Separate(x.token, s[x.length..])
  {
    hide WordLength, WordToken, ScanNumber, Unquote, Doubled, KeywordOf, IsNumber, IsName;
    if IsAlpha(s[0]) || s[0] == '_' {
      WordSound(s);
    } else if StartsNumber(s) {
      NumberSound(s);
    } else if s[0] == '\'' {
      TextSound(s, Unquote(s[1..]).value);
    }
  }

  lemma NumberSound(s: string)
    requires StartsNumber(s) && ScanNumber(s).Some?
    ensures var x := ScanNumber(s).value;
            x.token == Number(s[..x.length]) && IsNumber(s[..x.length]) && Separate(x.token, s[x.length..])
  {
    hide NumberLength;
    var x := ScanNumber(s).value;
    var sign := if s[0] == '-' then 1 else 0;
    var body := s[sign..];
    NumberRuns(body, false);
    var n := x.length - sign;
    assert body[..n] == s[..x.length][sign..];
    assert s[..x.length][0..] == s[..x.length];
    assert n > 0 && IsDigit(body[..n][0]);
    if '.' in body[..n] {
      var i :| 0 <= i < n && body[..n][i] == '.';
      assert s[..x.length][i + sign] == '.';
    }
  }

  // ---- Whole texts ----

  /** A token as it stands in a text: the spaces before it and its spelling. */
  datatype Piece = Piece(gap: string, text: string, token: Token)

  ghost predicate IsGap(s: string) {
    forall i :: 0 <= i < |s| ==> IsSpace(s[i])
  }

  ghost predicate PieceOk(p: Piece) {
    IsGap(p.gap) && Spells(p.text, p.token)
  }

  /** A text made of pieces and a last gap. */
  function Laid(ps: seq<Piece>, last: string): (s: string) {
    if ps == [] then last else ps[0].gap + ps[0].text + Laid(ps[1..], last)
  }

  function TokensOf(ps: seq<Piece>): (ts: seq<Token>)
    ensures |ts| == |ps|
  {
    seq(|ps|, i requires 0 <= i < |ps| => ps[i].token)
  }

  /** Neighbours that would run together are kept apart by a gap. */
  ghost predicate LayoutOk(ps: seq<Piece>, last: string) {
    && IsGap(last)
    && (forall i :: 0 <= i < |ps| ==> PieceOk(ps[i]))
    && (forall i :: 0 <= i < |ps| - 1 && ps[i + 1].gap == "" ==> Separate(ps[i].token, ps[i + 1].text))
  }

  lemma {:induction false} LexGap(gap: string, s: string)
    requires IsGap(gap)
    ensures Lex(gap + s) == Lex(s)
    decreases |gap|
  {
    if gap == "" {
      assert gap + s == s;
    } else {
      assert (gap + s)[1..] == gap[1..] + s;
      LexGap(gap[1..], s);
    }
  }

  lemma LaidSeparate(p: Piece, ps: seq<Piece>, last: string)
    requires LayoutOk([p] + ps, last)
    ensures Separate(p.token, Laid(ps, last))
  {
    hide Glues;
    SpaceNeverGlues(p.token);
    var qs := [p] + ps;
    if ps != [] {
      assert qs[0] == p && qs[0 + 1] == ps[0] && PieceOk(qs[1]);
      SpellingStarts(ps[0].text, ps[0].token);
      assert ps[0].gap == "" ==> Separate(qs[0].token, qs[0 + 1].text);
      assert Laid(ps, last)[0] == if ps[0].gap == "" then ps[0].text[0] else ps[0].gap[0];
    }
  }

  lemma SpaceNeverGlues(t: Token)
    ensures forall c :: IsSpace(c) ==> !Glues(t, c)
  {
  }

  lemma LayoutTail(p: Piece, ps: seq<Piece>, last: string)
    requires LayoutOk([p] + ps, last)
    ensures PieceOk(p) && LayoutOk(ps, last)
  {
    hide PieceOk, Separate;
    var qs := [p] + ps;
    assert qs[0] == p;
    assert forall i :: 0 <= i < |ps| ==> ps[i] == qs[i + 1];
    forall i | 0 <= i < |ps| - 1 && ps[i + 1].gap == "" ensures Separate(ps[i].token, ps[i + 1].text) {
      assert qs[i + 1] == ps[i] && qs[i + 1 + 1] == ps[i + 1];
    }
  }

  lemma LexOne(s: string, t: Token, n: nat)
    requires s != "" && !IsSpace(s[0]) && Scan(s) == Some(Scanned(t, n)) && n <= |s|
    ensures Lex(s) == Cons(t, Lex(s[n..]))
  {
    hide Scan;
  }

  lemma LexLaidStep(p: Piece, ps: seq<Piece>, last: string)
    requires PieceOk(p) && Separate(p.token, Laid(ps, last)) && Lex(Laid(ps, last)) == Some(TokensOf(ps) + [End])
    ensures Lex(Laid([p] + ps, last)) == Some(TokensOf([p] + ps) + [End])
  {
    hide Scan, Spells, Separate, Lex;
    var rest := Laid(ps, last);
    assert ([p] + ps)[1..] == ps;
    assert Laid([p] + ps, last) == p.gap + (p.text + rest);
    LexGap(p.gap, p.text + rest);
    SpellingStarts(p.text, p.token);
    ScanSpelled(p.text, p.token, rest);
    LexOne(p.text + rest, p.token, |p.text|);
    assert (p.text + rest)[|p.text|..] == rest;
    assert TokensOf([p] + ps) + [End] == [p.token] + (TokensOf(ps) + [End]);
  }

  /** Every layout of a token list is read back as that list. */
  lemma {:induction false} LexLaid(ps: seq<Piece>, last: string)
    requires LayoutOk(ps, last)
    ensures Lex(Laid(ps, last)) == Some(TokensOf(ps) + [End])
    decreases |ps|
  {
    hide Lex, LayoutOk, Separate, PieceOk, TokensOf;
    if ps == [] {
      LexLast(last);
    } else {
      assert ps == [ps[0]] + ps[1..];
      LaidSeparate(ps[0], ps[1..], last);
      LayoutTail(ps[0], ps[1..], last);
      LexLaid(ps[1..], last);
      LexLaidStep(ps[0], ps[1..], last);
    }
  }

  lemma LexLast(last: string)
    requires LayoutOk([], last)
    ensures Lex(last) == Some(TokensOf([]) + [End])
  {
    assert last + "" == last;
    assert TokensOf([]) + [End] == [End];
    LexGap(last, "");
  }

  lemma LayoutCons(p: Piece, qs: seq<Piece>, last: string)
    requires PieceOk(p) && LayoutOk(qs, last) && Separate(p.token, Laid(qs, last))
    ensures LayoutOk([p] + qs, last)
  {
    hide Spells, Glues;
    var ps := [p] + qs;
    if qs != [] && qs[0].gap == "" {
      assert PieceOk(qs[0]);
      SpellingStarts(qs[0].text, qs[0].token);
      assert Laid(qs, last)[0] == qs[0].text[0];
    }
    forall i | 0 <= i < |ps| - 1 && ps[i + 1].gap == "" ensures Separate(ps[i].token, ps[i + 1].text) {
      if i > 0 {
        assert ps[i] == qs[i - 1] && ps[i + 1] == qs[i - 1 + 1];
      }
    }
  }

  /** The pieces of a text that lexes. */
  ghost function Pieces(s: string, gap: string): (ps: seq<Piece>)
    requires Lex(s).Some?
    decreases |s|
  {
    if s == "" then []
    else if IsSpace(s[0]) then Pieces(s[1..], gap + [s[0]])
    else
      var x := Scan(s).value;
      [Piece(gap, s[..x.length], x.token)] + Pieces(s[x.length..], "")
  }

  ghost function LastGap(s: string, gap: string): (g: string)
    requires Lex(s).Some?
    decreases |s|
  {
    if s == "" then gap
    else if IsSpace(s[0]) then LastGap(s[1..], gap + [s[0]])
    else LastGap(s[Scan(s).value.length..], "")
  }

  /** Every text that lexes is a layout of its tokens. */
  lemma {:induction false} LexSound(s: string, gap: string)
    requires Lex(s).Some? && IsGap(gap)
    ensures LayoutOk(Pieces(s, gap), LastGap(s, gap))
    ensures Laid(Pieces(s, gap), LastGap(s, gap)) == gap + s
    ensures Lex(s).value == TokensOf(Pieces(s, gap)) + [End]
    decreases |s|
  {
    hide Scan, Spells, Separate, LayoutOk, TokensOf;
    if s == "" {
      LayoutNil(gap);
      assert gap + s == gap;
    } else if IsSpace(s[0]) {
      LexSound(s[1..], gap + [s[0]]);
      assert gap + s == gap + [s[0]] + s[1..];
    } else {
      var x := Scan(s).value;
      LexSound(s[x.length..], "");
      LexSoundStep(s, gap, x);
    }
  }

  lemma PiecesStep(s: string, gap: string, x: Scanned)
    requires s != "" && !IsSpace(s[0]) && Scan(s) == Some(x) && Lex(s).Some? && Lex(s[x.length..]).Some?
    ensures Pieces(s, gap) == [Piece(gap, s[..x.length], x.token)] + Pieces(s[x.length..], "")
    ensures LastGap(s, gap) == LastGap(s[x.length..], "")
  {
    hide Scan, Lex;
  }

  lemma FirstPiece(s: string, gap: string, x: Scanned)
    requires IsGap(gap) && s != "" && Scan(s) == Some(x)
    ensures PieceOk(Piece(gap, s[..x.length], x.token)) && Separate(x.token, s[x.length..])
  {
    hide Scan, Spells, Separate;
    ScanSound(s);
  }

  lemma LexSoundStep(s: string, gap: string, x: Scanned)
    requires IsGap(gap) && s != "" && !IsSpace(s[0]) && Scan(s) == Some(x) && Lex(s[x.length..]).Some?
    requires var rest := s[x.length..]; var qs := Pieces(rest, ""); var last := LastGap(rest, "");
             LayoutOk(qs, last) && Laid(qs, last) == "" + rest && Lex(rest).value == TokensOf(qs) + [End]
    ensures LayoutOk(Pieces(s, gap), LastGap(s, gap))
    ensures Laid(Pieces(s, gap), LastGap(s, gap)) == gap + s
    ensures Lex(s).value == TokensOf(Pieces(s, gap)) + [End]
  {
    hide Scan, Separate, PieceOk, LayoutOk, TokensOf, Lex, Laid, IsGap, Pieces, LastGap;
    var rest := s[x.length..];
    LexOne(s, x.token, x.length);
    PiecesStep(s, gap, x);
    FirstPiece(s, gap, x);
    LaidCons(Piece(gap, s[..x.length], x.token), Pieces(rest, ""), LastGap(rest, ""), rest);
    assert gap + s == gap + s[..x.length] + rest;
  }

  lemma LayoutNil(gap: string)
    requires IsGap(gap)
    ensures LayoutOk([], gap) && TokensOf([]) + [End] == [End]
  {
  }

  lemma LaidCons(p: Piece, qs: seq<Piece>, last: string, rest: string)
    requires PieceOk(p) && LayoutOk(qs, last) && Laid(qs, last) == "" + rest && Separate(p.token, rest)
    ensures LayoutOk([p] + qs, last)
    ensures Laid([p] + qs, last) == p.gap + p.text + rest
    ensures TokensOf([p] + qs) + [End] == [p.token] + (TokensOf(qs) + [End])
  {
    hide Spells, Separate, LayoutOk;
    assert "" + rest == rest;
    LayoutCons(p, qs, last);
    assert ([p] + qs)[1..] == qs;
  }

  /** A text lexes to `ts` exactly when it is a layout of `ts`. */
  lemma LexExact(s: string, ts: seq<Token>)
    ensures Lex(s) == Some(ts + [End])
            <==> exists ps, last :: LayoutOk(ps, last) && Laid(ps, last) == s && TokensOf(ps) == ts
  {
    hide LayoutOk, Pieces, LastGap, Lex;
    if Lex(s) == Some(ts + [End]) {
      LexSound(s, "");
      var ps, last := Pieces(s, ""), LastGap(s, "");
      assert "" + s == s;
      assert (ts + [End])[..|ts|] == ts && (TokensOf(ps) + [End])[..|ps|] == TokensOf(ps);
    }
    if ps, last :| LayoutOk(ps, last) && Laid(ps, last) == s && TokensOf(ps) == ts {
      LexLaid(ps, last);
    }
  }

  // ---- Spaces around the text ----

  /** Trailing spaces never change what the tokenizer returns; with LexGap, trimming does not either. */
  lemma {:induction false} LexTrailing(s: string, gap: string)
    requires IsGap(gap)
    ensures Lex(s + gap) == Lex(s)
    decreases |s|
  {
    hide Scan;
    if s == "" {
      assert s + gap == gap + "";
      LexGap(gap, "");
    } else if IsSpace(s[0]) {
      assert (s + gap)[1..] == s[1..] + gap;
      LexTrailing(s[1..], gap);
    } else {
      ScanTrailing(s, gap);
      if Scan(s).Some? {
        var n := Scan(s).value.length;
        assert (s + gap)[n..] == s[n..] + gap;
        LexTrailing(s[n..], gap);
      }
    }
  }

  lemma {:induction false} NumberTrailing(s: string, gap: string, seenDot: bool)
    requires IsGap(gap)
    ensures NumberLength(s + gap, seenDot) == NumberLength(s, seenDot)
  {
    if s == "" {
      assert s + gap == gap;
    } else {
      assert (s + gap)[1..] == s[1..] + gap;
      NumberTrailing(s[1..], gap, seenDot);
      NumberTrailing(s[1..], gap, true);
    }
  }

  lemma {:induction false} UnquoteTrailing(s: string, gap: string)
    requires IsGap(gap)
    ensures Unquote(s + gap) == Unquote(s)
    decreases |s|
  {
    if s == "" {
      assert s + gap == gap;
      UnquoteGap(gap);
    } else if s[0] != '\'' {
      assert (s + gap)[1..] == s[1..] + gap;
      UnquoteTrailing(s[1..], gap);
    } else if |s| > 1 && s[1] == '\'' {
      assert (s + gap)[2..] == s[2..] + gap;
      UnquoteTrailing(s[2..], gap);
    }
  }

  lemma {:induction false} UnquoteGap(gap: string)
    requires IsGap(gap)
    ensures Unquote(gap) == None
  {
    if gap != "" {
      UnquoteGap(gap[1..]);
    }
  }

  lemma {:induction false} WordTrailing(s: string, gap: string)
    requires IsGap(gap)
    ensures WordLength(s + gap) == WordLength(s)
  {
    if s == "" {
      assert s + gap == gap;
    } else {
      assert (s + gap)[1..] == s[1..] + gap;
      WordTrailing(s[1..], gap);
    }
  }

  lemma PrefixKept(s: string, gap: string, n: nat)
    requires n <= |s|
    ensures (s + gap)[..n] == s[..n]
  {
  }

  lemma ScanNumberTrailing(s: string, gap: string)
    requires StartsNumber(s) && IsGap(gap)
    ensures StartsNumber(s + gap) && ScanNumber(s + gap) == ScanNumber(s)
  {
    hide NumberLength, ScanNumber;
    var t := s + gap;
    var sign := if s[0] == '-' then 1 else 0;
    assert t[sign..] == s[sign..] + gap;
    NumberTrailing(s[sign..], gap, false);
    ScanNumberIs(s, sign, NumberLength(s[sign..], false));
    ScanNumberIs(t, sign, NumberLength(t[sign..], false));
    if NumberLength(s[sign..], false).Some? {
      var n := sign + NumberLength(s[sign..], false).value;
      assert t[..n] == s[..n];
    }
  }

  lemma ScanTrailing(s: string, gap: string)
    requires s != "" && IsGap(gap)
    ensures Scan(s + gap) == Scan(s)
  {
    hide WordLength, WordToken, NumberLength, ScanNumber, Unquote;
    var t := s + gap;
    if IsAlpha(s[0]) || s[0] == '_' {
      WordTrailing(s, gap);
      PrefixKept(s, gap, WordLength(s));
    } else if StartsNumber(s) {
      ScanNumberTrailing(s, gap);
    } else if s[0] == '\'' {
      assert t[1..] == s[1..] + gap;
      UnquoteTrailing(s[1..], gap);
    }
  }
}
