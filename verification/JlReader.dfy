/** What the reader of jl.c makes of a text, apart from the pool: the grammar, the loops over characters, and printing. */
module JlReader {
  import opened JlNumber

  /** An expression as it is read: a token is a number if strtod takes all of it, and a variable otherwise. */
  datatype Sexp = Num(number: Double) | Text(str: string) | Sym(name: string) | Seq(items: seq<Sexp>)

  /** An expression, none, or a reader that has stepped over the end of the text and reads what happens to be there. */
  datatype Got = Nothing | Got(sexp: Sexp) | Astray

  /** What reading one expression gives: the expression, what is left of the text, whether an error was reported. */
  datatype Read = Read(got: Got, rest: string, error: bool)

  datatype Reads = Reads(items: seq<Sexp>, rest: string, error: bool, astray: bool)

  function Tail(s: string): (r: string)
    ensures |r| <= |s|
  {
    if s == [] then s else s[1..]
  }

  predicate At(s: string, ch: char) {
    s != [] && s[0] == ch
  }

  // ----- white space -----

  predicate Blank(ch: char) {
    ch == '\n' || ch == '\t' || ch == ' ' || ch == '\r'
  }

  function AfterLine(s: string): (r: string)
    ensures |r| <= |s|
    ensures At(s, ';') ==> |r| < |s|
  {
    if s == [] then s else if s[0] == '\n' then s[1..] else AfterLine(s[1..])
  }

  /** The text from its first character that is neither white space nor in a comment. */
  function Skip(s: string): (r: string)
    ensures |r| <= |s|
    ensures r != [] ==> !Blank(r[0]) && r[0] != ';'
    decreases |s|
  {
    if At(s, ';') then Skip(AfterLine(s))
    else if s != [] && Blank(s[0]) then Skip(s[1..])
    else s
  }

  /** The loop over white space and comments steps over the end of the text. */
  predicate PastEnd(s: string)
    decreases |s|
  {
    if At(s, ';') then '\n' !in s || PastEnd(AfterLine(s))
    else s != [] && Blank(s[0]) && PastEnd(s[1..])
  }

  /** The loop at the start of ParseExpression; astray when it has gone behind the end of the text. */
  method SkipBlanks(s: string) returns (line: string, astray: bool)
    ensures astray == PastEnd(s)
    ensures !astray ==> line == Skip(s)
  {
    line := s;
    while true
      invariant Skip(line) == Skip(s) && PastEnd(line) == PastEnd(s)
      decreases |line|
    {
      if At(line, ';') {
        ghost var start := line;
        while line != [] && line[0] != '\n'
          invariant AfterLine(line) == AfterLine(start) && |line| <= |start| && ('\n' in line <==> '\n' in start)
          decreases |line|
        {
          line := line[1..];
        }
        if line == [] { return line, true; }
      } else if line == [] || !Blank(line[0]) {
        return line, false;
      }
      line := line[1..];
    }
  }

  /** Position i is in a comment, if everything before it is white space or in a comment. */
  predicate InComment(s: string, i: nat)
    requires i < |s|
  {
    exists j :: 0 <= j <= i && s[j] == ';' && '\n' !in s[j..i + 1]
  }

  /** A semicolon without a new line behind it. */
  predicate OpenComment(s: string) {
    exists j :: 0 <= j < |s| && s[j] == ';' && '\n' !in s[j..]
  }

  /** All of s is white space and comments. */
  predicate OnlyBlanks(s: string) {
    forall i :: 0 <= i < |s| ==> Blank(s[i]) || InComment(s, i)
  }

  /** The same comments in the text behind its first n characters, if no comment goes on over that place. */
  lemma CommentsBehind(s: string, n: nat)
    requires 0 < n <= |s|
    requires forall j :: 0 <= j < n && s[j] == ';' ==> '\n' in s[j..n]
    ensures forall i :: n <= i < |s| ==> (InComment(s, i) <==> InComment(s[n..], i - n))
    ensures OpenComment(s) <==> OpenComment(s[n..])
  {
    var u := s[n..];
    forall j, m | 0 <= j < n && s[j] == ';' && n <= m <= |s| ensures '\n' in s[j..m] {
      NewLineInside(s, j, n, m);
    }
    assert forall j :: 0 <= j < |s| ==> s[j..] == s[j..|s|];
    forall i | n <= i < |s| ensures InComment(s, i) <==> InComment(u, i - n) {
      if InComment(s, i) {
        var j :| 0 <= j <= i && s[j] == ';' && '\n' !in s[j..i + 1];
        assert u[j - n] == ';' && s[j..i + 1] == u[j - n..i - n + 1];
      }
      if InComment(u, i - n) {
        var j :| 0 <= j <= i - n && u[j] == ';' && '\n' !in u[j..i - n + 1];
        assert s[j + n] == ';' && s[j + n..i + 1] == u[j..i - n + 1];
      }
    }
    if OpenComment(s) {
      var j :| 0 <= j < |s| && s[j] == ';' && '\n' !in s[j..];
      assert u[j - n] == ';' && s[j..] == u[j - n..];
    }
    if OpenComment(u) {
      OpenLonger(s, n);
    }
  }

  lemma OpenLonger(s: string, n: nat)
    requires n <= |s| && OpenComment(s[n..])
    ensures OpenComment(s)
  {
    var u := s[n..];
    var j :| 0 <= j < |u| && u[j] == ';' && '\n' !in u[j..];
    assert s[j + n] == ';' && s[j + n..] == u[j..];
  }

  lemma NewLineInside(s: string, j: nat, n: nat, m: nat)
    requires j <= n <= m <= |s| && '\n' in s[j..n]
    ensures '\n' in s[j..m]
  {
    assert s[j..m] == s[j..n] + s[n..m];
  }

  lemma {:induction false} AfterNewLine(s: string) returns (n: nat)
    requires '\n' in s
    ensures 0 < n <= |s| && AfterLine(s) == s[n..] && s[n - 1] == '\n' && '\n' !in s[..n - 1]
  {
    if s[0] == '\n' {
      n := 1;
    } else {
      var k := AfterNewLine(s[1..]);
      n := k + 1;
      assert s[..n - 1] == [s[0]] + s[1..][..k - 1];
    }
  }

  /** A comment that a new line ends at n - 1. */
  lemma ClosedComment(s: string, n: nat)
    requires At(s, ';') && 0 < n <= |s| && s[n - 1] == '\n' && '\n' !in s[..n - 1]
    ensures OnlyBlanks(s) <==> OnlyBlanks(s[n..])
    ensures OpenComment(s) <==> OpenComment(s[n..])
  {
    forall j | 0 <= j < n && s[j] == ';' ensures '\n' in s[j..n] {
      assert s[j..n][n - 1 - j] == '\n';
    }
    CommentsBehind(s, n);
    forall i | 0 <= i < n ensures Blank(s[i]) || InComment(s, i) {
      assert i < n - 1 ==> s[0..i + 1] == s[..n - 1][..i + 1];
    }
    BlanksBehind(s, n);
  }

  lemma WholeComment(s: string)
    requires At(s, ';') && '\n' !in s
    ensures OnlyBlanks(s) && OpenComment(s)
  {
    assert s[0..] == s;
    forall i | 0 <= i < |s| ensures InComment(s, i) {
      assert s[0..i + 1] == s[..i + 1];
    }
  }

  lemma BlankFirst(s: string)
    requires s != [] && Blank(s[0])
    ensures OnlyBlanks(s) <==> OnlyBlanks(s[1..])
    ensures OpenComment(s) <==> OpenComment(s[1..])
  {
    hide OnlyBlanks, OpenComment, InComment;
    CommentsBehind(s, 1);
    BlanksBehind(s, 1);
  }

  /** The skip steps over the end of the text exactly if all of it is white space and comments, and the last of these
      is not ended by a new line. */
  lemma {:induction false} PastEndExactly(s: string)
    ensures PastEnd(s) <==> OnlyBlanks(s) && OpenComment(s)
    decreases |s|
  {
    if At(s, ';') {
      hide OnlyBlanks, OpenComment;
      if '\n' in s {
        var n := AfterNewLine(s);
        ClosedComment(s, n);
        PastEndExactly(s[n..]);
      } else {
        WholeComment(s);
      }
    } else if s != [] && Blank(s[0]) {
      BlankFirst(s);
      PastEndExactly(s[1..]);
    } else if s != [] {
      assert !InComment(s, 0);
    }
  }

  lemma BlanksBehind(s: string, n: nat)
    requires n <= |s| && (forall i :: 0 <= i < n ==> Blank(s[i]) || InComment(s, i))
    requires forall i :: n <= i < |s| ==> (InComment(s, i) <==> InComment(s[n..], i - n))
    ensures OnlyBlanks(s) <==> OnlyBlanks(s[n..])
  {
    var u := s[n..];
    assert forall i :: 0 <= i < |u| ==> u[i] == s[i + n] && (InComment(u, i) <==> InComment(s, i + n));
    assert forall i :: n <= i < |s| ==> s[i] == u[i - n];
  }

  // ----- tokens -----

  predicate Separator(ch: char) {
    ch == '(' || ch == ')' || ch == ' ' || ch == '\t' || ch == '\r' || ch == '\n' || ch == ';'
  }

  function TokenLength(s: string): (n: nat)
    ensures n <= |s|
    ensures forall k :: 0 <= k < n ==> !Separator(s[k])
    ensures n < |s| ==> Separator(s[n])
  {
    if s == [] || Separator(s[0]) then 0 else 1 + TokenLength(s[1..])
  }

  method Token(s: string) returns (len: nat)
    ensures len == TokenLength(s)
  {
    len := 0;
    while len < |s| && !Separator(s[len])
      invariant len <= |s| && TokenLength(s) == len + TokenLength(s[len..])
    {
      len := len + 1;
    }
  }

  // ----- strings -----

  /** Where the reader is inside a string: how many digits an escape may still have. */
  datatype Mode = Plain | Control | Hex(left: nat) | Octal(left: nat)

  predicate HexDigit(ch: char) {
    '0' <= ch <= '9' || 'a' <= ch <= 'f' || 'A' <= ch <= 'F'
  }

  predicate OctalDigit(ch: char) {
    '0' <= ch <= '7'
  }

  /** The character a backslash and ch stand for, apart from x and 0. */
  function Escaped(ch: char): char {
    match ch
    case 'a' => 7 as char
    case 'b' => 8 as char
    case 'f' => 12 as char
    case 'n' => '\n'
    case 'r' => '\r'
    case 't' => '\t'
    case 'v' => 11 as char
    case _ => ch
  }

  /** The characters of the string whose inside starts with s. */
  function Inside(s: string, mode: Mode): string
    decreases |s|, if mode == Plain then 0 else 1
  {
    if s == [] || (s[0] == '\"' && mode != Control) then []
    else match mode
      case Plain => if s[0] == '\\' then Inside(s[1..], Control) else [s[0]] + Inside(s[1..], Plain)
      case Control =>
        if s[0] == 'x' then Inside(s[1..], Hex(2))
        else if s[0] == '0' then Inside(s[1..], Octal(3))
        else [Escaped(s[0])] + Inside(s[1..], Plain)
      case Hex(n) => if n > 0 && HexDigit(s[0]) then Inside(s[1..], Hex(n - 1)) else Inside(s, Plain)
      case Octal(n) => if n > 0 && OctalDigit(s[0]) then Inside(s[1..], Octal(n - 1)) else Inside(s, Plain)
  }

  /** What follows the inside of the string, from its closing quotation mark on. */
  function Beyond(s: string, mode: Mode): (r: string)
    ensures |r| <= |s|
    ensures r != [] ==> r[0] == '\"'
    decreases |s|, if mode == Plain then 0 else 1
  {
    if s == [] || (s[0] == '\"' && mode != Control) then s
    else match mode
      case Plain => Beyond(s[1..], if s[0] == '\\' then Control else Plain)
      case Control => Beyond(s[1..], if s[0] == 'x' then Hex(2) else if s[0] == '0' then Octal(3) else Plain)
      case Hex(n) => if n > 0 && HexDigit(s[0]) then Beyond(s[1..], Hex(n - 1)) else Beyond(s, Plain)
      case Octal(n) => if n > 0 && OctalDigit(s[0]) then Beyond(s[1..], Octal(n - 1)) else Beyond(s, Plain)
  }

  /** One character of a string. */
  lemma OneStep(s: string, mode: Mode)
    requires s != [] && (s[0] != '\"' || mode == Control)
    ensures mode == Plain ==>
      && Beyond(s, mode) == Beyond(s[1..], if s[0] == '\\' then Control else Plain)
      && Inside(s, mode) == if s[0] == '\\' then Inside(s[1..], Control) else [s[0]] + Inside(s[1..], Plain)
    ensures mode == Control ==>
      var after := if s[0] == 'x' then Hex(2) else if s[0] == '0' then Octal(3) else Plain;
      && Beyond(s, mode) == Beyond(s[1..], after)
      && Inside(s, mode) == if after == Plain then [Escaped(s[0])] + Inside(s[1..], Plain) else Inside(s[1..], after)
    ensures mode.Hex? && mode.left > 0 ==>
      && Beyond(s, mode) == (if HexDigit(s[0]) then Beyond(s[1..], Hex(mode.left - 1)) else Beyond(s, Plain))
      && Inside(s, mode) == (if HexDigit(s[0]) then Inside(s[1..], Hex(mode.left - 1)) else Inside(s, Plain))
    ensures mode.Octal? && mode.left > 0 ==>
      && Beyond(s, mode) == (if OctalDigit(s[0]) then Beyond(s[1..], Octal(mode.left - 1)) else Beyond(s, Plain))
      && Inside(s, mode) == (if OctalDigit(s[0]) then Inside(s[1..], Octal(mode.left - 1)) else Inside(s, Plain))
  {
  }

  lemma NoStep(s: string, mode: Mode)
    requires s == [] || (s[0] == '\"' && mode != Control)
    ensures Inside(s, mode) == [] && Beyond(s, mode) == s
  {
  }

  /** The string branch of ParseLiteral, from after the opening quotation mark. */
  method StringBody(s: string) returns (str: string, line: string)
    ensures str == Inside(s, Plain) && line == Tail(Beyond(s, Plain))
  {
    hide Inside, Beyond, HexDigit, OctalDigit, Escaped;
    str, line := [], s;
    var inControl, inHex, inOctal := false, 0, 0;
    while line != [] && (inControl || line[0] != '\"')
      invariant inHex >= 0 && inOctal >= 0 && (inControl ==> inHex == 0 && inOctal == 0) && (inHex > 0 ==> inOctal == 0)
      invariant Inside(s, Plain) == str + Inside(line, ModeOf(inControl, inHex, inOctal))
      invariant Beyond(s, Plain) == Beyond(line, ModeOf(inControl, inHex, inOctal))
      decreases |line|, inHex + inOctal
    {
      OneStep(line, ModeOf(inControl, inHex, inOctal));
      if inHex > 0 {
        if HexDigit(line[0]) {
          inHex := inHex - 1;
          line := line[1..];
        } else {
          inHex := 0;
        }
      } else if inOctal > 0 {
        if OctalDigit(line[0]) {
          inOctal := inOctal - 1;
          line := line[1..];
        } else {
          inOctal := 0;
        }
      } else if inControl {
        inControl := false;
        if line[0] == 'x' {
          inHex := 2;
        } else if line[0] == '0' {
          inOctal := 3;
        } else {
          Joined(str, Escaped(line[0]), Inside(line[1..], Plain));
          str := str + [Escaped(line[0])];
        }
        line := line[1..];
      } else if line[0] == '\\' {
        inControl := true;
        line := line[1..];
      } else {
        Joined(str, line[0], Inside(line[1..], Plain));
        str := str + [line[0]];
        line := line[1..];
      }
      Spent(line);
    }
    NoStep(line, ModeOf(inControl, inHex, inOctal));
    line := Tail(line);
  }

  function ModeOf(inControl: bool, inHex: nat, inOctal: nat): Mode {
    if inHex > 0 then Hex(inHex) else if inOctal > 0 then Octal(inOctal) else if inControl then Control else Plain
  }

  lemma Joined(s: string, c: char, t: string)
    ensures s + ([c] + t) == s + [c] + t
  {
  }

  /** An escape with no digits to come is over. */
  lemma Spent(s: string)
    ensures Inside(s, Hex(0)) == Inside(s, Octal(0)) == Inside(s, Plain)
    ensures Beyond(s, Hex(0)) == Beyond(s, Octal(0)) == Beyond(s, Plain)
  {
  }

  // ----- expressions -----

  /** What a token is. */
  function Atom(lib: Arith, token: string): Sexp {
    match lib.strtod(token)
    case Some(x) => Num(x)
    case None => Sym(token)
  }

  function ReadExpr(lib: Arith, s: string): (r: Read)
    ensures |r.rest| <= |s| && (r.got.Got? ==> |r.rest| < |s|)
    decreases |s|, 0
  {
    var t := Skip(s);
    if PastEnd(s) then Read(Astray, [], false)
    else if t == [] || t[0] == ')' then Read(Nothing, t, false)
    else if t[0] == '(' then
      var r := ReadItems(lib, t[1..]);
      if r.astray then Read(Astray, [], false)
      else if At(r.rest, ')') then Read(Got(Seq(r.items)), r.rest[1..], r.error) else Read(Nothing, r.rest, true)
    else if t[0] == '\"' then Read(Got(Text(Inside(t[1..], Plain))), Tail(Beyond(t[1..], Plain)), false)
    else
      var n := TokenLength(t);
      Read(Got(Atom(lib, t[..n])), t[n..], false)
  }

  function ReadItems(lib: Arith, s: string): (r: Reads)
    ensures |r.rest| <= |s|
    decreases |s|, 1
  {
    if s == [] || s[0] == ')' then Reads([], s, false, false)
    else
      var r := ReadExpr(lib, s);
      if !r.got.Got? then Reads([], r.rest, r.error, r.got.Astray?)
      else
        var more := ReadItems(lib, r.rest);
        Reads([r.got.sexp] + more.items, more.rest, r.error || more.error, more.astray)
  }

  /** JLParse: one expression, or an error for a parenthesis nothing opened. */
  function ReadTop(lib: Arith, s: string): Read {
    var r := ReadExpr(lib, s);
    if At(r.rest, ')') then Read(r.got, r.rest[1..], true) else r
  }

  /** A text whose every semicolon has a new line behind it is never left. */
  lemma {:induction false} StaysInside(lib: Arith, s: string)
    requires !OpenComment(s)
    ensures !ReadExpr(lib, s).got.Astray? && !OpenComment(ReadExpr(lib, s).rest)
    decreases |s|, 0
  {
    PastEndExactly(s);
    var n := SkipSuffix(s);
    var t := Skip(s);
    OpenSuffix(s, n);
    if At(t, '(') {
      OpenSuffix(t, 1);
      ItemsInside(lib, t[1..]);
      var rest := ReadItems(lib, t[1..]).rest;
      if rest != [] {
        OpenSuffix(rest, 1);
      }
    } else if At(t, '\"') {
      var m := BeyondSuffix(t[1..], Plain);
      var b := Beyond(t[1..], Plain);
      assert b == t[m + 1..];
      OpenSuffix(t, m + 1);
      if b != [] {
        OpenSuffix(b, 1);
      }
    } else if t != [] {
      OpenSuffix(t, TokenLength(t));
    }
  }

  lemma {:induction false} ItemsInside(lib: Arith, s: string)
    requires !OpenComment(s)
    ensures !ReadItems(lib, s).astray && !OpenComment(ReadItems(lib, s).rest)
    decreases |s|, 1
  {
    if s != [] && s[0] != ')' {
      StaysInside(lib, s);
      var r := ReadExpr(lib, s);
      if r.got.Got? {
        ItemsInside(lib, r.rest);
      }
    }
  }

  lemma OpenSuffix(s: string, n: nat)
    requires n <= |s| && !OpenComment(s)
    ensures !OpenComment(s[n..])
  {
    if OpenComment(s[n..]) {
      OpenLonger(s, n);
    }
  }

  lemma {:induction false} SkipSuffix(s: string) returns (n: nat)
    ensures n <= |s| && Skip(s) == s[n..]
    decreases |s|
  {
    n := 0;
    if At(s, ';') {
      if '\n' in s {
        var k := AfterNewLine(s);
        n := SkipSuffix(s[k..]);
        assert s[k..][n..] == s[k + n..];
        n := n + k;
      } else {
        NoLineBehind(s);
        n := |s|;
      }
    } else if s != [] && Blank(s[0]) {
      n := SkipSuffix(s[1..]);
      assert s[1..][n..] == s[n + 1..];
      n := n + 1;
    }
  }

  lemma {:induction false} NoLineBehind(s: string)
    requires '\n' !in s
    ensures AfterLine(s) == []
  {
    if s != [] {
      NoLineBehind(s[1..]);
    }
  }

  lemma {:induction false} BeyondSuffix(s: string, mode: Mode) returns (n: nat)
    ensures n <= |s| && Beyond(s, mode) == s[n..]
    decreases |s|, if mode == Plain then 0 else 1
  {
    if s == [] || (s[0] == '\"' && mode != Control) {
      n := 0;
    } else {
      var stays := (mode.Hex? && !(mode.left > 0 && HexDigit(s[0]))) || (mode.Octal? && !(mode.left > 0 && OctalDigit(s[0])));
      if stays {
        n := BeyondSuffix(s, Plain);
      } else {
        var after := match mode
          case Plain => if s[0] == '\\' then Control else Plain
          case Control => if s[0] == 'x' then Hex(2) else if s[0] == '0' then Octal(3) else Plain
          case Hex(left) => Hex(left - 1)
          case Octal(left) => Octal(left - 1);
        n := BeyondSuffix(s[1..], after);
        assert s[1..][n..] == s[n + 1..];
        n := n + 1;
      }
    }
  }

  /** A text that is a semicolon, and one with an expression before it: the second reading of it goes astray. */
  lemma OpenCommentLost(lib: Arith)
    requires Sane(lib)
    ensures ReadTop(lib, ";").got.Astray?
    ensures ReadTop(lib, "1 ;x") == Read(Got(Num(Finite(1.0))), " ;x", false) && ReadTop(lib, " ;x").got.Astray?
  {
    var open := " ;x";
    assert open[1..] == ";x";
    TokenExpr(lib, "1", open);
    IntRead(lib, 1);
    assert ShowInt(1) == "1";
    assert "1" + open == "1 ;x";
  }

  /** An error is reported only when the text ran out inside a list. */
  lemma {:induction false} ErrorsAtEnd(lib: Arith, s: string)
    ensures ReadExpr(lib, s).error ==> ReadExpr(lib, s).rest == [] && ReadExpr(lib, s).got.Nothing?
    decreases |s|, 0
  {
    var t := Skip(s);
    if At(t, '(') {
      ItemsErrorAtEnd(lib, t[1..]);
    }
  }

  lemma {:induction false} ItemsErrorAtEnd(lib: Arith, s: string)
    ensures var r := ReadItems(lib, s); (r.error ==> r.rest == [] && !r.astray) && (r.rest != [] ==> r.rest[0] == ')')
    decreases |s|, 1
  {
    if s != [] && s[0] != ')' {
      ErrorsAtEnd(lib, s);
      NothingLeft(lib, s);
      var r := ReadExpr(lib, s);
      if r.got.Got? {
        ItemsErrorAtEnd(lib, r.rest);
      }
    }
  }

  /** Without an expression the reader stops at the end or at a closing parenthesis. */
  lemma {:induction false} NothingLeft(lib: Arith, s: string)
    ensures var r := ReadExpr(lib, s); r.got.Nothing? && r.rest != [] ==> r.rest[0] == ')'
    decreases |s|, 0
  {
    var t := Skip(s);
    if At(t, '(') {
      ItemsErrorAtEnd(lib, t[1..]);
    }
  }

  // ----- characters -----

  const BLANKS: set<char> := {' ', '\t', '\r', '\n'}

  /** White space in front of an expression does not matter, and neither does a comment. */
  lemma Ignored(lib: Arith, c: char, comment: string, s: string)
    requires c in BLANKS && '\n' !in comment
    ensures ReadExpr(lib, [c] + s) == ReadExpr(lib, s)
    ensures ReadExpr(lib, [';'] + comment + ['\n'] + s) == ReadExpr(lib, s)
  {
    hide ReadItems;
    var text, noted := [c] + s, [';'] + comment + ['\n'] + s;
    assert text[1..] == s && Skip(text) == Skip(s) && PastEnd(text) == PastEnd(s);
    assert noted[1..] == comment + (['\n'] + s) && noted[0] == ';' && noted[1 + |comment|] == '\n';
    LineOver(comment, s);
    assert AfterLine(noted) == AfterLine(noted[1..]) == s;
    assert Skip(noted) == Skip(s) && PastEnd(noted) == PastEnd(s);
  }

  lemma {:induction false} LineOver(comment: string, s: string)
    requires '\n' !in comment
    ensures AfterLine(comment + (['\n'] + s)) == s
  {
    var text := comment + (['\n'] + s);
    if comment == [] {
      assert text == ['\n'] + s;
    } else {
      assert text[1..] == comment[1..] + (['\n'] + s);
      LineOver(comment[1..], s);
    }
  }

  /** A token reaches to the first white space, parenthesis or semicolon, and is a number if strtod takes all of it. */
  lemma TokenRead(lib: Arith, t: string, c: char, rest: string)
    requires t != [] && t[0] != '"' && (forall k :: 0 <= k < |t| ==> t[k] !in BLANKS && t[k] !in {'(', ')', ';'})
    requires c in BLANKS || c in {'(', ')', ';'}
    ensures ReadExpr(lib, t + [c] + rest) == Read(Got(match lib.strtod(t) case Some(x) => Num(x) case None => Sym(t)), [c] + rest, false)
  {
    assert t + [c] + rest == t + ([c] + rest);
    TokenExpr(lib, t, [c] + rest);
  }

  /** A parenthesis that nothing opened is passed over with an error; a list that nothing closes is an error, too, and no
      expression. */
  lemma Unbalanced(lib: Arith, t: string, rest: string)
    requires t != [] && t[0] != '"' && (forall k :: 0 <= k < |t| ==> t[k] !in BLANKS && t[k] !in {'(', ')', ';'})
    ensures ReadTop(lib, [')'] + rest) == Read(Nothing, rest, true)
    ensures ReadTop(lib, t + [')'] + rest) == Read(ReadExpr(lib, t + [')'] + rest).got, rest, true)
    ensures ReadTop(lib, "(") == Read(Nothing, [], true) && ReadTop(lib, ['('] + t) == Read(Nothing, [], true)
    ensures ReadTop(lib, "()") == Read(Got(Seq([])), [], false) && ReadTop(lib, "") == Read(Nothing, [], false)
  {
    TokenRead(lib, t, ')', rest);
    assert ([')'] + rest)[1..] == rest && "("[1..] == [] && (['('] + t)[1..] == t && "()"[1..] == ")" && ")"[1..] == [];
    TokenExpr(lib, t, []);
    assert t + [] == t;
    ItemThen(lib, t, ReadExpr(lib, t), Reads([], [], false, false));
  }

  /** The digits of hexadecimal and octal escapes. */
  lemma DigitsOfEscapes(ch: char)
    ensures HexDigit(ch) <==> ch in "0123456789abcdefABCDEF"
    ensures OctalDigit(ch) <==> ch in "01234567"
  {
    var hex := "0123456789abcdefABCDEF";
    if HexDigit(ch) {
      assert hex[if ch <= '9' then ch as int - '0' as int else if ch >= 'a' then ch as int - 'a' as int + 10 else ch as int - 'A' as int + 16] == ch;
    }
    if OctalDigit(ch) {
      assert "01234567"[ch as int - '0' as int] == ch;
    }
  }

  // ----- printing -----

  /** JLPrint. */
  function Show(lib: Arith, e: Sexp): string
    decreases e
  {
    match e
    case Num(x) => ShowNumber(lib, x)
    case Text(str) => ['"'] + str + ['"']
    case Sym(name) => name
    case Seq(items) => ['('] + ShowAll(lib, items) + [')']
  }

  function ShowAll(lib: Arith, items: seq<Sexp>): string
    decreases items
  {
    if items == [] then []
    else Show(lib, items[0]) + if |items| == 1 then [] else [' '] + ShowAll(lib, items[1..])
  }

  /** What is printed: items between parentheses with single spaces, strings in quotation marks, names as they are. */
  lemma Printed(lib: Arith, a: Sexp, items: seq<Sexp>, str: string)
    ensures Show(lib, Seq([])) == "()" && Show(lib, Seq([a])) == "(" + Show(lib, a) + ")"
    ensures items != [] ==>
      Show(lib, Seq([a] + items)) == "(" + Show(lib, a) + " " + Show(lib, Seq(items))[1..]
    ensures Show(lib, Text(str)) == "\"" + str + "\"" && Show(lib, Sym(str)) == str
    ensures forall k: int :: -0x8000 <= k < 0x8000 && Whole(lib, Finite(k as real)) && Sane(lib) ==>
      Show(lib, Num(Finite(k as real))) == ShowInt(k)
  {
    assert [a] + items == [a] + items && ([a] + items)[1..] == items;
  }

  /** Neither a quotation mark nor a backslash. */
  predicate Clean(s: string) {
    forall k :: 0 <= k < |s| ==> s[k] != '"' && s[k] != '\\'
  }

  predicate IsToken(s: string) {
    s != [] && s[0] != '"' && forall k :: 0 <= k < |s| ==> !Separator(s[k])
  }

  /** What the reader can make: no variable has the name of a number. */
  predicate Typed(lib: Arith, e: Sexp) {
    match e
    case Num(_) => true
    case Text(_) => true
    case Sym(name) => IsToken(name) && lib.strtod(name) == None
    case Seq(items) => forall k :: 0 <= k < |items| ==> Typed(lib, items[k])
  }

  /** Printing keeps every part: the numbers survive, and no string has a quotation mark or a backslash. */
  predicate Readable(lib: Arith, e: Sexp) {
    match e
    case Num(x) => Survives(lib, x)
    case Text(str) => Clean(str)
    case Sym(_) => true
    case Seq(items) => forall k :: 0 <= k < |items| ==> Readable(lib, items[k])
  }

  lemma {:induction false} TokenRest(t: string, rest: string)
    requires rest == [] || Separator(rest[0])
    requires forall k :: 0 <= k < |t| ==> !Separator(t[k])
    ensures TokenLength(t + rest) == |t|
  {
    if t == [] {
      assert t + rest == rest;
    } else {
      assert (t + rest)[1..] == t[1..] + rest;
      TokenRest(t[1..], rest);
    }
  }

  lemma {:induction false} CleanRead(s: string, rest: string)
    requires Clean(s)
    ensures Inside(s + ['"'] + rest, Plain) == s && Beyond(s + ['"'] + rest, Plain) == ['"'] + rest
  {
    var text := s + ['"'] + rest;
    if s != [] {
      assert text[1..] == s[1..] + ['"'] + rest && text[0] == s[0];
      CleanRead(s[1..], rest);
    }
  }

  /** Reading a token, once what precedes it is skipped. */
  lemma TokenExpr(lib: Arith, t: string, rest: string)
    requires IsToken(t) && (rest == [] || Separator(rest[0]))
    ensures ReadExpr(lib, t + rest) == Read(Got(Atom(lib, t)), rest, false)
  {
    var text := t + rest;
    TokenRest(t, rest);
    assert text[0] == t[0] && Skip(text) == text && text[..|t|] == t && text[|t|..] == rest;
  }

  lemma TextExpr(lib: Arith, str: string, rest: string)
    requires Clean(str)
    ensures ReadExpr(lib, ['"'] + str + ['"'] + rest) == Read(Got(Text(str)), rest, false)
  {
    var text := ['"'] + str + ['"'] + rest;
    CleanRead(str, rest);
    assert text[1..] == str + ['"'] + rest && text[0] == '"' && Skip(text) == text;
    assert (['"'] + rest)[1..] == rest;
  }

  lemma ListExpr(lib: Arith, items: seq<Sexp>, inner: string, rest: string)
    requires ReadItems(lib, inner + ([')'] + rest)) == Reads(items, [')'] + rest, false, false)
    ensures ReadExpr(lib, ['('] + inner + [')'] + rest) == Read(Got(Seq(items)), rest, false)
  {
    hide ReadItems;
    var text, tail := ['('] + inner + [')'] + rest, inner + ([')'] + rest);
    assert text == ['('] + tail;
    assert text[1..] == tail && text[0] == '(';
    assert Skip(text) == text && !PastEnd(text);
    assert ([')'] + rest)[0] == ')' && ([')'] + rest)[1..] == rest;
  }

  lemma NumberShown(lib: Arith, x: Double)
    requires Sane(lib)
    ensures IsToken(ShowNumber(lib, x)) && ShowNumber(lib, x)[0] != ')'
  {
  }

  /** What is printed is read back: every expression of which printing keeps every part, whatever follows it. */
  lemma {:induction false} ReadsBack(lib: Arith, e: Sexp, rest: string)
    requires Sane(lib) && Typed(lib, e) && Readable(lib, e)
    requires rest == [] || Separator(rest[0])
    ensures ReadExpr(lib, Show(lib, e) + rest) == Read(Got(e), rest, false)
    decreases e, 0
  {
    hide ReadExpr, ReadItems, Sane, ShowNumber;
    match e
    case Num(x) =>
      NumberShown(lib, x);
      NumberReadsBack(lib, x);
      TokenExpr(lib, ShowNumber(lib, x), rest);
    case Sym(t) => TokenExpr(lib, t, rest);
    case Text(str) => TextExpr(lib, str, rest);
    case Seq(items) =>
      ItemsReadBack(lib, items, [')'] + rest);
      ListExpr(lib, items, ShowAll(lib, items), rest);
  }

  lemma ItemThen(lib: Arith, s: string, r: Read, more: Reads)
    requires s != [] && s[0] != ')' && ReadExpr(lib, s) == r && r.got.Got? && ReadItems(lib, r.rest) == more
    ensures ReadItems(lib, s) == Reads([r.got.sexp] + more.items, more.rest, r.error || more.error, more.astray)
  {
  }

  lemma NoItems(lib: Arith, s: string)
    requires At(s, ')')
    ensures ReadItems(lib, s) == Reads([], s, false, false)
  {
  }

  lemma {:induction false} ItemsReadBack(lib: Arith, items: seq<Sexp>, rest: string)
    requires Sane(lib) && forall k :: 0 <= k < |items| ==> Typed(lib, items[k]) && Readable(lib, items[k])
    requires At(rest, ')')
    ensures ReadItems(lib, ShowAll(lib, items) + rest) == Reads(items, rest, false, false)
    decreases items, 1
  {
    hide ReadExpr, ReadItems, Show, Readable, Typed, Sane;
    NoItems(lib, rest);
    if items == [] {
      assert ShowAll(lib, items) + rest == rest;
    } else {
      var e, others := items[0], items[1..];
      var more := if others == [] then rest else [' '] + (ShowAll(lib, others) + rest);
      assert ShowAll(lib, items) + rest == Show(lib, e) + more;
      ReadsBack(lib, e, more);
      ShowStarts(lib, e);
      assert (Show(lib, e) + more)[0] == Show(lib, e)[0];
      if others != [] {
        ItemsReadBack(lib, others, rest);
        ShowStarts(lib, others[0]);
        assert (ShowAll(lib, others) + rest)[0] == Show(lib, others[0])[0];
        BlankBefore(lib, ShowAll(lib, others) + rest);
      }
      ItemThen(lib, Show(lib, e) + more, Read(Got(e), more, false), Reads(others, rest, false, false));
      assert [e] + others == items;
    }
  }

  lemma ShowStarts(lib: Arith, e: Sexp)
    requires Sane(lib) && Typed(lib, e)
    ensures Show(lib, e) != [] && Show(lib, e)[0] != ')'
  {
    hide Sane, ShowNumber;
    if e.Num? { NumberShown(lib, e.number); }
  }

  lemma BlankBefore(lib: Arith, s: string)
    requires s != [] && s[0] != ')'
    ensures ReadItems(lib, [' '] + s) == ReadItems(lib, s)
  {
    BlankSkipped(lib, s);
  }

  lemma BlankSkipped(lib: Arith, s: string)
    ensures ReadExpr(lib, [' '] + s) == ReadExpr(lib, s)
  {
    hide ReadItems;
    var text := [' '] + s;
    assert text[1..] == s && Skip(text) == Skip(s) && PastEnd(text) == PastEnd(s);
  }

  // ----- strings that are not read back -----

  lemma {:induction false} InsideFits(s: string, mode: Mode)
    ensures |Inside(s, mode)| <= |s|
    decreases |s|, if mode == Plain then 0 else 1
  {
    if s != [] && !(s[0] == '"' && mode != Control) {
      InsideFits(s[1..], Plain);
      InsideFits(s[1..], Control);
      InsideFits(s[1..], Hex(2));
      InsideFits(s[1..], Octal(3));
      if mode.Hex? || mode.Octal? {
        InsideFits(s, Plain);
        if mode.left > 0 {
          InsideFits(s[1..], if mode.Hex? then Hex(mode.left - 1) else Octal(mode.left - 1));
        }
      }
    }
  }

  /** A closing quotation mark is never a character of the string, unless it is escaped for a character before it. */
  lemma {:induction false} QuotedFits(s: string)
    ensures |Inside(s + ['"'], Plain)| <= |s|
  {
    var text := s + ['"'];
    if s != [] && s[0] != '"' {
      assert text[1..] == s[1..] + ['"'];
      if s[0] == '\\' {
        if |s| > 1 {
          assert text[1..][1..] == s[2..] + ['"'];
          QuotedFits(s[2..]);
          InsideFits(text[1..][1..], Hex(2));
          InsideFits(text[1..][1..], Octal(3));
        } else {
          assert text[1..] == ['\"'] && text[1..][1..] == [];
          assert Inside(text[1..], Control) == [Escaped('\"')] + Inside([], Plain);
        }
      } else {
        QuotedFits(s[1..]);
      }
    }
  }

  lemma {:induction false} OnlyClean(s: string)
    requires Inside(s + ['"'], Plain) == s
    ensures Clean(s)
  {
    var text := s + ['"'];
    if s != [] {
      assert text[1..] == s[1..] + ['"'] && text[0] == s[0];
      if s[0] == '\\' {
        if |s| > 1 {
          assert text[1..][1..] == s[2..] + ['"'];
          QuotedFits(s[2..]);
          InsideFits(text[1..][1..], Hex(2));
          InsideFits(text[1..][1..], Octal(3));
        }
        assert false;
      }
      OnlyClean(s[1..]);
    }
  }

  /** One of the first n characters is a quotation mark. */
  predicate EarlyQuote(s: string, n: nat) {
    exists j :: 0 <= j < |s| && j < n && s[j] == '"'
  }

  lemma EarlyMore(ch: char, s: string, n: nat)
    requires EarlyQuote(s, n)
    ensures EarlyQuote([ch] + s, n + 1)
  {
    var j :| 0 <= j < |s| && j < n && s[j] == '"';
    assert ([ch] + s)[j + 1] == '"';
  }

  lemma NotEarly(s: string, n: nat)
    requires n <= |s| && '"' !in s[..n]
    ensures !EarlyQuote(s, n)
  {
    assert forall j :: 0 <= j < n ==> s[j] == s[..n][j];
  }

  /** Of a string with a quotation mark behind it the reader makes nothing of what follows, unless the mark is escaped,
      and then there is one among the first characters of what it reads. */
  lemma {:induction false} FirstQuote(s: string, rest: string, mode: Mode)
    requires '"' !in s
    ensures var o := Inside(s + ['"'] + rest, mode);
      o == Inside(s + ['"'], mode) || EarlyQuote(o, |s| + if mode == Control then 1 else 0)
    decreases |s|, if mode == Plain then 0 else 1
  {
    var text, short := s + ['"'] + rest, s + ['"'];
    if s == [] {
      if mode == Control {
        var o := ['"'] + Inside(text[1..], Plain);
        assert Inside(text, mode) == o && o[0] == '"';
      }
    } else {
      var t := s[1..];
      assert text[1..] == t + ['"'] + rest && short[1..] == t + ['"'] && text[0] == short[0] == s[0] != '"';
      OneStep(text, mode);
      OneStep(short, mode);
      Spent(text);
      Spent(short);
      hide Inside;
      match mode {
        case Plain =>
          FirstQuote(t, rest, if s[0] == '\\' then Control else Plain);
        case Control =>
          FirstQuote(t, rest, if s[0] == 'x' then Hex(2) else if s[0] == '0' then Octal(3) else Plain);
        case Hex(n) =>
          if n > 0 && HexDigit(s[0]) { FirstQuote(t, rest, Hex(n - 1)); } else { FirstQuote(s, rest, Plain); }
        case Octal(n) =>
          if n > 0 && OctalDigit(s[0]) { FirstQuote(t, rest, Octal(n - 1)); } else { FirstQuote(s, rest, Plain); }
      }
      var o := Inside(text[1..], Plain);
      if EarlyQuote(o, |t|) {
        EarlyMore(s[0], o, |t|);
        EarlyMore(Escaped(s[0]), o, |t|);
      }
    }
  }

  /** The part of a string before its first quotation mark. */
  lemma {:induction false} UpToQuote(s: string) returns (q: nat)
    requires '"' in s
    ensures q < |s| && s[q] == '"' && '"' !in s[..q]
  {
    if s[0] == '"' {
      q := 0;
    } else {
      var p := UpToQuote(s[1..]);
      q := p + 1;
      assert s[..q] == [s[0]] + s[1..][..p];
    }
  }

  /** A string is what the reader makes of it, whatever follows its closing quotation mark, only if there is nothing to
      escape in it. */
  lemma OnlyCleanBefore(s: string, rest: string)
    requires Inside(s + ['"'] + rest, Plain) == s
    ensures Clean(s)
  {
    var text := s + ['"'] + rest;
    assert text[|s|] == '"';
    var q := UpToQuote(text);
    var u := s[..q];
    assert text[..q] == u && text == u + ['"'] + text[q + 1..];
    FirstQuote(u, text[q + 1..], Plain);
    assert s[..q] == u;
    NotEarly(s, q);
    QuotedFits(u);
    assert u == s;
    OnlyClean(s);
  }

  /** A string is read back from what JLPrint writes exactly if it has no quotation mark and no backslash. */
  lemma TextReadsBack(lib: Arith, str: string, rest: string)
    ensures ReadExpr(lib, Show(lib, Text(str)) + rest).got == Got(Text(str)) <==> Clean(str)
  {
    var text := Show(lib, Text(str)) + rest;
    assert text[1..] == str + ['"'] + rest && text[0] == '"' && Skip(text) == text;
    if Clean(str) {
      TextExpr(lib, str, rest);
    } else if Inside(str + ['"'] + rest, Plain) == str {
      OnlyCleanBefore(str, rest);
    }
  }

  // ----- expressions that are not read back -----

  /** An expression that is read back is one of which printing keeps every part. */
  lemma {:induction false} OnlyReadable(lib: Arith, e: Sexp, rest: string)
    requires Sane(lib) && Typed(lib, e) && (rest == [] || Separator(rest[0]))
    requires ReadExpr(lib, Show(lib, e) + rest).got == Got(e)
    ensures Readable(lib, e)
    decreases e, 0
  {
    hide ReadExpr, ReadItems, Sane, ShowNumber;
    match e
    case Num(x) =>
      NumberShown(lib, x);
      NumberReadsBack(lib, x);
      TokenExpr(lib, ShowNumber(lib, x), rest);
    case Sym(_) =>
    case Text(str) => TextReadsBack(lib, str, rest);
    case Seq(items) =>
      ListInside(lib, items, ShowAll(lib, items), rest);
      ItemsReadable(lib, items, [')'] + rest);
  }

  lemma ListInside(lib: Arith, items: seq<Sexp>, inner: string, rest: string)
    requires ReadExpr(lib, ['('] + inner + [')'] + rest).got == Got(Seq(items))
    ensures ReadItems(lib, inner + ([')'] + rest)).items == items
  {
    hide ReadItems;
    var text, tail := ['('] + inner + [')'] + rest, inner + ([')'] + rest);
    assert text[1..] == tail && text[0] == '(' && Skip(text) == text;
  }

  lemma FirstItem(lib: Arith, s: string, items: seq<Sexp>)
    requires s != [] && s[0] != ')' && items != [] && ReadItems(lib, s).items == items
    ensures ReadExpr(lib, s).got == Got(items[0]) && ReadItems(lib, ReadExpr(lib, s).rest).items == items[1..]
  {
  }

  lemma {:induction false} ItemsReadable(lib: Arith, items: seq<Sexp>, rest: string)
    requires Sane(lib) && (forall k :: 0 <= k < |items| ==> Typed(lib, items[k])) && At(rest, ')')
    requires ReadItems(lib, ShowAll(lib, items) + rest).items == items
    ensures forall k :: 0 <= k < |items| ==> Readable(lib, items[k])
    decreases items, 1
  {
    hide ReadExpr, ReadItems, Show, Readable, Typed, Sane;
    if items != [] {
      var e, others := items[0], items[1..];
      var more := if others == [] then rest else [' '] + (ShowAll(lib, others) + rest);
      var text := Show(lib, e) + more;
      assert ShowAll(lib, items) + rest == text;
      ShowStarts(lib, e);
      assert text[0] == Show(lib, e)[0];
      FirstItem(lib, text, items);
      OnlyReadable(lib, e, more);
      ReadsBack(lib, e, more);
      if others != [] {
        ShowStarts(lib, others[0]);
        assert (ShowAll(lib, others) + rest)[0] == Show(lib, others[0])[0];
        BlankBefore(lib, ShowAll(lib, others) + rest);
        ItemsReadable(lib, others, rest);
      }
      forall k | 0 <= k < |items| ensures Readable(lib, items[k]) {
        if k > 0 { assert items[k] == others[k - 1]; }
      }
    }
  }

  /** The reader makes typed expressions. */
  lemma {:induction false} ReadIsTyped(lib: Arith, s: string)
    ensures var r := ReadExpr(lib, s); r.got.Got? ==> Typed(lib, r.got.sexp)
    decreases |s|, 0
  {
    var t := Skip(s);
    if !PastEnd(s) && At(t, '(') {
      ItemsAreTyped(lib, t[1..]);
    }
  }

  lemma {:induction false} ItemsAreTyped(lib: Arith, s: string)
    ensures forall e :: e in ReadItems(lib, s).items ==> Typed(lib, e)
    decreases |s|, 1
  {
    if s != [] && s[0] != ')' {
      ReadIsTyped(lib, s);
      var r := ReadExpr(lib, s);
      if r.got.Got? { ItemsAreTyped(lib, r.rest); }
    }
  }

  /** What JLPrint writes for anything the reader makes is read as that same expression, whatever follows, exactly if
      printing keeps every part of it. */
  lemma ReadsBackExactly(lib: Arith, e: Sexp, rest: string)
    requires Sane(lib) && Typed(lib, e) && (rest == [] || Separator(rest[0]))
    ensures ReadExpr(lib, Show(lib, e) + rest) == Read(Got(e), rest, false) <==> Readable(lib, e)
  {
    if Readable(lib, e) {
      ReadsBack(lib, e, rest);
    } else if ReadExpr(lib, Show(lib, e) + rest).got == Got(e) {
      OnlyReadable(lib, e, rest);
    }
  }

  // ----- escapes with digits -----

  function DigitValue(ch: char): nat
    requires HexDigit(ch)
  {
    if '0' <= ch <= '9' then ch as int - '0' as int
    else if 'a' <= ch <= 'f' then ch as int - 'a' as int + 10
    else ch as int - 'A' as int + 10
  }

  /** C's escapes of one letter. */
  const ESCAPES: map<char, char> :=
    map['a' := 7 as char, 'b' := 8 as char, 't' := 9 as char, 'n' := 10 as char, 'v' := 11 as char, 'f' := 12 as char, 'r' := 13 as char]

  lemma EscapedAsInC(ch: char)
    ensures Escaped(ch) == if ch in ESCAPES then ESCAPES[ch] else ch
  {
  }

  /** A backslash before a letter is one character, and whatever follows is read as it would be alone. */
  lemma EscapeReads(c: char, s: string)
    requires c != 'x' && c != '0'
    ensures var r, rest := Inside(['\\', c] + s, Plain), Inside(s, Plain);
      && (c == 'a' ==> r == [7 as char] + rest) && (c == 'b' ==> r == [8 as char] + rest) && (c == 't' ==> r == [9 as char] + rest)
      && (c == 'n' ==> r == [10 as char] + rest) && (c == 'v' ==> r == [11 as char] + rest)
      && (c == 'f' ==> r == [12 as char] + rest) && (c == 'r' ==> r == [13 as char] + rest)
      && (c !in {'a', 'b', 't', 'n', 'v', 'f', 'r'} ==> r == [c] + rest)
    ensures Beyond(['\\', c] + s, Plain) == Beyond(s, Plain)
  {
    var text, inner := ['\\', c] + s, [c] + s;
    assert text[1..] == inner && inner[1..] == s;
    assert Inside(text, Plain) == Inside(inner, Control) == [Escaped(c)] + Inside(s, Plain);
    assert Beyond(text, Plain) == Beyond(inner, Control);
  }

  /** The string as the comments in the source and C's escapes mean it: an escape with up to two hexadecimal or three
      octal digits is the character with that number. */
  function Meant(s: string, mode: Mode, number: nat): string
    decreases |s|, if mode == Plain then 0 else 1
  {
    if s == [] || (s[0] == '\"' && mode != Control) then
      if mode.Hex? || mode.Octal? then [(number % 256) as char] else []
    else match mode
      case Plain => if s[0] == '\\' then Meant(s[1..], Control, 0) else [s[0]] + Meant(s[1..], Plain, 0)
      case Control =>
        if s[0] == 'x' then Meant(s[1..], Hex(2), 0)
        else if s[0] == '0' then Meant(s[1..], Octal(3), 0)
        else [if s[0] in ESCAPES then ESCAPES[s[0]] else s[0]] + Meant(s[1..], Plain, 0)
      case Hex(n) =>
        if n > 0 && HexDigit(s[0]) then Meant(s[1..], Hex(n - 1), 16 * number + DigitValue(s[0]))
        else [(number % 256) as char] + Meant(s, Plain, 0)
      case Octal(n) =>
        if n > 0 && OctalDigit(s[0]) then Meant(s[1..], Octal(n - 1), 8 * number + DigitValue(s[0]))
        else [(number % 256) as char] + Meant(s, Plain, 0)
  }

  /** How many escapes x and 0 the reader meets before the closing quotation mark. */
  function Numeric(s: string, mode: Mode): nat
    decreases |s|, if mode == Plain then 0 else 1
  {
    if s == [] || (s[0] == '\"' && mode != Control) then 0
    else match mode
      case Plain => Numeric(s[1..], if s[0] == '\\' then Control else Plain)
      case Control =>
        if s[0] == 'x' then 1 + Numeric(s[1..], Hex(2))
        else if s[0] == '0' then 1 + Numeric(s[1..], Octal(3))
        else Numeric(s[1..], Plain)
      case Hex(n) => if n > 0 && HexDigit(s[0]) then Numeric(s[1..], Hex(n - 1)) else Numeric(s, Plain)
      case Octal(n) => if n > 0 && OctalDigit(s[0]) then Numeric(s[1..], Octal(n - 1)) else Numeric(s, Plain)
  }

  /** Every such escape is a character too few, and nothing else differs. */
  lemma {:induction false} NumericMissing(s: string, mode: Mode, number: nat)
    ensures |Meant(s, mode, number)| == |Inside(s, mode)| + Numeric(s, mode) + if mode.Hex? || mode.Octal? then 1 else 0
    ensures Numeric(s, mode) == 0 && (mode == Plain || mode == Control) ==> Meant(s, mode, number) == Inside(s, mode)
    decreases |s|, if mode == Plain then 0 else 1
  {
    if s != [] && !(s[0] == '\"' && mode != Control) {
      match mode
      case Plain => NumericMissing(s[1..], if s[0] == '\\' then Control else Plain, 0);
      case Control =>
        EscapedAsInC(s[0]);
        NumericMissing(s[1..], if s[0] == 'x' then Hex(2) else if s[0] == '0' then Octal(3) else Plain, 0);
      case Hex(n) =>
        if n > 0 && HexDigit(s[0]) {
          NumericMissing(s[1..], Hex(n - 1), 16 * number + DigitValue(s[0]));
        } else {
          NumericMissing(s, Plain, 0);
        }
      case Octal(n) =>
        if n > 0 && OctalDigit(s[0]) {
          NumericMissing(s[1..], Octal(n - 1), 8 * number + DigitValue(s[0]));
        } else {
          NumericMissing(s, Plain, 0);
        }
    }
  }

  /** A string is read as it is meant exactly if the reader meets no escape x or 0 in it. */
  lemma ReadAsMeant(s: string)
    ensures Inside(s, Plain) == Meant(s, Plain, 0) <==> Numeric(s, Plain) == 0
  {
    NumericMissing(s, Plain, 0);
  }

  lemma EscapeStarts(c: char, s: string)
    requires c == 'x' || c == '0'
    ensures var mode := if c == 'x' then Hex(2) else Octal(3);
      && Inside(['\\', c] + s, Plain) == Inside(s, mode)
      && Meant(['\\', c] + s, Plain, 0) == Meant(s, mode, 0)
  {
    var text, inner := ['\\', c] + s, [c] + s;
    assert text[1..] == inner && inner[1..] == s;
    assert Inside(text, Plain) == Inside(inner, Control);
    assert Meant(text, Plain, 0) == Meant(inner, Control, 0);
  }

  /** A hexadecimal escape, with two, one or no digits, stands for nothing. */
  lemma HexVanishes(digits: string, s: string)
    requires |digits| <= 2 && forall k :: 0 <= k < |digits| ==> HexDigit(digits[k])
    requires |digits| == 2 || s == [] || !HexDigit(s[0])
    ensures Inside(['\\', 'x'] + digits + s, Plain) == Inside(s, Plain)
    ensures var m := Meant(['\\', 'x'] + digits + s, Plain, 0); m != [] && m[1..] == Meant(s, Plain, 0)
  {
    hide Inside, Meant;
    assert ['\\', 'x'] + digits + s == ['\\', 'x'] + (digits + s);
    EscapeStarts('x', digits + s);
    HexOver(2, digits, s, 0);
  }

  lemma {:induction false} HexOver(n: nat, digits: string, s: string, number: nat)
    requires |digits| <= n && forall k :: 0 <= k < |digits| ==> HexDigit(digits[k])
    requires |digits| == n || s == [] || !HexDigit(s[0])
    ensures Inside(digits + s, Hex(n)) == Inside(s, Plain)
    ensures var m := Meant(digits + s, Hex(n), number); m != [] && m[1..] == Meant(s, Plain, 0)
  {
    if digits == [] {
      assert digits + s == s;
    } else {
      assert (digits + s)[1..] == digits[1..] + s;
      HexOver(n - 1, digits[1..], s, 16 * number + DigitValue(digits[0]));
    }
  }

  /** So does an octal escape, 0 and up to three digits behind it. */
  lemma OctalVanishes(digits: string, s: string)
    requires |digits| <= 3 && forall k :: 0 <= k < |digits| ==> OctalDigit(digits[k])
    requires |digits| == 3 || s == [] || !OctalDigit(s[0])
    ensures Inside(['\\', '0'] + digits + s, Plain) == Inside(s, Plain)
    ensures var m := Meant(['\\', '0'] + digits + s, Plain, 0); m != [] && m[1..] == Meant(s, Plain, 0)
  {
    hide Inside, Meant;
    assert ['\\', '0'] + digits + s == ['\\', '0'] + (digits + s);
    EscapeStarts('0', digits + s);
    OctalOver(3, digits, s, 0);
  }

  lemma {:induction false} OctalOver(n: nat, digits: string, s: string, number: nat)
    requires |digits| <= n && forall k :: 0 <= k < |digits| ==> OctalDigit(digits[k])
    requires |digits| == n || s == [] || !OctalDigit(s[0])
    ensures Inside(digits + s, Octal(n)) == Inside(s, Plain)
    ensures var m := Meant(digits + s, Octal(n), number); m != [] && m[1..] == Meant(s, Plain, 0)
  {
    if digits == [] {
      assert digits + s == s;
    } else {
      assert (digits + s)[1..] == digits[1..] + s;
      OctalOver(n - 1, digits[1..], s, 8 * number + DigitValue(digits[0]));
    }
  }

  /** An octal escape of C that does not start with 0 is read as its digits. */
  lemma DigitStays(d: char, s: string)
    requires '1' <= d <= '7'
    ensures Inside(['\\', d] + s, Plain) == [d] + Inside(s, Plain)
  {
    var text := ['\\', d] + s;
    assert text[1..] == [d] + s && text[1..][1..] == s;
  }
}
