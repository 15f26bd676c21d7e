/** The diagnostics of the XSF core: the header `DecoratedError` and
    `DecoratedWarning` print when they are constructed, the two
    `InvalidXSFFile` classes, and a reader that takes an error header apart. */
module Diagnostics {
  import opened Wrappers
  import opened Decimal

  /** The terminal styles the headers switch between. */
  datatype Ansi = Red | Bold | Reset

  /** The escape sequence of a style (`ESC[31m`, `ESC[1m`, `ESC[0m`). */
  function Escape(a: Ansi): string {
    match a
    case Red => "\U{1B}[31m"
    case Bold => "\U{1B}[1m"
    case Reset => "\U{1B}[0m"
  }

  /** Printed output as a sequence of plain text and style switches. */
  datatype Piece = Text(text: string) | Style(style: Ansi)

  /** A style switch as written to a terminal (`styled`) or as a reader sees it. */
  function Sty(a: Ansi, styled: bool): string {
    if styled then Escape(a) else ""
  }

  function PieceOut(p: Piece, styled: bool): string {
    match p
    case Text(t) => t
    case Style(a) => Sty(a, styled)
  }

  /** The characters of the output, with or without the escape sequences. */
  function Emit(ps: seq<Piece>, styled: bool): string {
    if |ps| == 0 then "" else PieceOut(ps[0], styled) + Emit(ps[1..], styled)
  }

  /** The characters written to the terminal, escape sequences included. */
  function Render(ps: seq<Piece>): string {
    Emit(ps, true)
  }

  /** The text a reader sees: the output with every style switch dropped. */
  function Visible(ps: seq<Piece>): string {
    Emit(ps, false)
  }

  lemma EmitCons(p: Piece, ps: seq<Piece>, styled: bool)
    ensures Emit([p] + ps, styled) == PieceOut(p, styled) + Emit(ps, styled)
  {
    assert ([p] + ps)[1..] == ps;
  }

  lemma {:induction false} EmitAppend(a: seq<Piece>, b: seq<Piece>, styled: bool)
    ensures Emit(a + b, styled) == Emit(a, styled) + Emit(b, styled)
  {
    if |a| == 0 {
      assert a + b == b;
    } else {
      assert (a + b)[0] == a[0];
      assert (a + b)[1..] == a[1..] + b;
      EmitAppend(a[1..], b, styled);
    }
  }

  /** `ESC[31m ESC[1m [ ESC[0m ESC[31m` and a space: what opens a bracketed block. */
  function Opening(styled: bool): string {
    Sty(Red, styled) + Sty(Bold, styled) + "[" + Sty(Reset, styled) + Sty(Red, styled) + " "
  }

  /** A space, `ESC[1m` and `]`: what closes a bracketed block. */
  function Closing(styled: bool): string {
    " " + Sty(Bold, styled) + "]"
  }

  /** The red, bold-bracketed block both headers print: `[ body ]` followed by `rest`. */
  function Bracketed(body: string, rest: seq<Piece>): seq<Piece> {
    [Style(Red), Style(Bold), Text("["), Style(Reset), Style(Red), Text(" " + body + " "), Style(Bold), Text("]")] + rest
  }

  lemma OpeningEmit(r: seq<Piece>, styled: bool)
    ensures Emit([Style(Red)] + ([Style(Bold)] + ([Text("[")] + ([Style(Reset)] + ([Style(Red)] + r)))), styled)
         == Sty(Red, styled) + Sty(Bold, styled) + "[" + Sty(Reset, styled) + Sty(Red, styled) + Emit(r, styled)
  {
    var p4 := [Style(Red)] + r;
    EmitCons(Style(Red), r, styled);
    var p3 := [Style(Reset)] + p4;
    EmitCons(Style(Reset), p4, styled);
    var p2 := [Text("[")] + p3;
    EmitCons(Text("["), p3, styled);
    var p1 := [Style(Bold)] + p2;
    EmitCons(Style(Bold), p2, styled);
    EmitCons(Style(Red), p1, styled);
  }

  lemma ClosingEmit(x: string, rest: seq<Piece>, styled: bool)
    ensures Emit([Text(x)] + ([Style(Bold)] + ([Text("]")] + rest)), styled) == x + Sty(Bold, styled) + "]" + Emit(rest, styled)
  {
    var p2 := [Text("]")] + rest;
    EmitCons(Text("]"), rest, styled);
    var p1 := [Style(Bold)] + p2;
    EmitCons(Style(Bold), p2, styled);
    EmitCons(Text(x), p1, styled);
  }

  lemma BracketedNested(x: string, body: string, rest: seq<Piece>)
    requires x == " " + body + " "
    ensures Bracketed(body, rest) == [Style(Red)] + ([Style(Bold)] + ([Text("[")] + ([Style(Reset)] +
      ([Style(Red)] + ([Text(x)] + ([Style(Bold)] + ([Text("]")] + rest)))))))
  {
  }

  /** Regrouping a bracketed block around its body. */
  lemma BracketText(o: string, body: string, b: string, v: string)
    ensures o + ((" " + body + " ") + b + "]" + v) == (o + " ") + body + (" " + b + "]") + v
  {
  }

  /** The block prints its opening, the body, its closing, then `rest`. */
  lemma BracketedEmit(body: string, rest: seq<Piece>, styled: bool)
    ensures Emit(Bracketed(body, rest), styled) == Opening(styled) + body + Closing(styled) + Emit(rest, styled)
  {
    var x := " " + body + " ";
    var r := [Text(x)] + ([Style(Bold)] + ([Text("]")] + rest));
    ClosingEmit(x, rest, styled);
    OpeningEmit(r, styled);
    BracketedNested(x, body, rest);
    var o := Sty(Red, styled) + Sty(Bold, styled) + "[" + Sty(Reset, styled) + Sty(Red, styled);
    BracketText(o, body, Sty(Bold, styled), Emit(rest, styled));
  }

  lemma BracketedVisible(body: string, rest: seq<Piece>)
    ensures Visible(Bracketed(body, rest)) == "[ " + body + " ]" + Visible(rest)
  {
    BracketedEmit(body, rest, false);
  }

  /** Kotlin's `Char.uppercaseChar()` restricted to ASCII: only `a`-`z` change. */
  function UpperChar(c: char): (u: char)
    ensures 'a' <= c <= 'z' ==> 'A' <= u <= 'Z' && u as int - c as int == 'A' as int - 'a' as int
    ensures !('a' <= c <= 'z') ==> u == c
  {
    if 'a' <= c <= 'z' then (c as int - 32) as char else c
  }

  /** `String.uppercase()` (ASCII letters only). */
  function Uppercase(s: string): (u: string)
    ensures |u| == |s|
    ensures forall i :: 0 <= i < |s| ==> u[i] == UpperChar(s[i])
  {
    seq(|s|, i requires 0 <= i < |s| => UpperChar(s[i]))
  }

  /** `replace(" ", "-")`: every space becomes a hyphen. */
  function ReplaceSpaces(s: string): (r: string)
    ensures |r| == |s|
    ensures forall i :: 0 <= i < |s| ==> r[i] == (if s[i] == ' ' then '-' else s[i])
  {
    seq(|s|, i requires 0 <= i < |s| => if s[i] == ' ' then '-' else s[i])
  }

  predicate NoSpace(s: string) {
    forall i :: 0 <= i < |s| ==> s[i] != ' '
  }

  /** The tag of an error header: the type upper-cased, then spaces replaced. */
  function ErrorTag(typ: string): (tag: string)
    ensures |tag| == |typ|
    ensures NoSpace(tag)
    ensures forall i :: 0 <= i < |typ| ==>
      tag[i] == (if typ[i] == ' ' then '-' else UpperChar(typ[i]))
  {
    ReplaceSpaces(Uppercase(typ))
  }

  /** The tag of a warning header: the type upper-cased, spaces kept. */
  function WarningTag(typ: string): (tag: string)
    ensures |tag| == |typ|
    ensures forall i :: 0 <= i < |typ| ==> tag[i] == UpperChar(typ[i])
    ensures forall i :: 0 <= i < |typ| ==> (tag[i] == ' ' <==> typ[i] == ' ')
  {
    Uppercase(typ)
  }

  /** Normalising an already normalised error tag changes nothing. */
  lemma ErrorTagIdempotent(typ: string)
    ensures ErrorTag(ErrorTag(typ)) == ErrorTag(typ)
  {
  }

  /** A warning tag is already upper case: upper-casing it again changes nothing. */
  lemma WarningTagIdempotent(typ: string)
    ensures Uppercase(WarningTag(typ)) == WarningTag(typ)
  {
  }

  /** The `" <Code n>"` suffix, present exactly when a code is given. */
  function CodeSuffix(code: Option<Int32>): string {
    match code
    case None => ""
    case Some(n) => " <Code " + IntToString(n as int) + ">"
  }

  /** The visible text of an error header with the given tag, message and code. */
  function ErrorHeaderText(tag: string, message: string, code: Option<Int32>): string {
    "\n[ " + tag + "-ERROR : " + message + " ]" + CodeSuffix(code) + "\n\n"
  }

  /** The `" <Code n>"` piece, present exactly when a code is given. It holds no
      style switch, so the terminal and the reader see the same text. */
  function CodePieces(code: Option<Int32>): (ps: seq<Piece>)
    ensures Visible(ps) == CodeSuffix(code)
    ensures Render(ps) == CodeSuffix(code)
  {
    match code
    case None => []
    case Some(n) =>
      EmitSingle(Text(" <Code " + IntToString(n as int) + ">"), false);
      EmitSingle(Text(" <Code " + IntToString(n as int) + ">"), true);
      [Text(" <Code " + IntToString(n as int) + ">")]
  }

  lemma EmitSingle(p: Piece, styled: bool)
    ensures Emit([p], styled) == PieceOut(p, styled)
  {
    assert [p][1..] == [];
  }

  /** The pieces of an error header with the given body. */
  function ErrorPieces(body: string, code: Option<Int32>): seq<Piece> {
    [Text("\n")] + Bracketed(body, CodePieces(code) + [Style(Reset), Text("\n\n")])
  }

  lemma ErrorPiecesEmit(body: string, code: Option<Int32>, styled: bool)
    ensures Emit(ErrorPieces(body, code), styled)
         == "\n" + Opening(styled) + body + Closing(styled) + CodeSuffix(code) + Sty(Reset, styled) + "\n\n"
  {
    var tail := [Style(Reset), Text("\n\n")];
    EmitSingle(Text("\n\n"), styled);
    EmitCons(Style(Reset), [Text("\n\n")], styled);
    assert [Style(Reset)] + [Text("\n\n")] == tail;
    EmitAppend(CodePieces(code), tail, styled);
    var rest := CodePieces(code) + tail;
    BracketedEmit(body, rest, styled);
    EmitCons(Text("\n"), Bracketed(body, rest), styled);
    ErrorTailText(Opening(styled), body, Closing(styled), CodeSuffix(code), Sty(Reset, styled));
  }

  /** Regrouping the printed pieces of an error header. */
  lemma ErrorTailText(o: string, body: string, c: string, cs: string, r: string)
    ensures "\n" + (o + body + c + (cs + (r + "\n\n"))) == "\n" + o + body + c + cs + r + "\n\n"
  {
  }

  /** Regrouping an error header around its tag and message. */
  lemma ErrorTextShape(o: string, tag: string, m: string, c: string, cs: string, r: string)
    ensures o + (tag + "-ERROR : " + m) + c + cs + r + "\n\n" == o + tag + "-ERROR : " + m + c + cs + (r + "\n\n")
  {
  }

  /** The escape sequences around an error header, as `DecoratedError` writes them. */
  lemma ErrorEscapes()
    ensures "\n" + Opening(true) == "\n\U{1B}[31m\U{1B}[1m[\U{1B}[0m\U{1B}[31m "
    ensures Closing(true) == " \U{1B}[1m]"
    ensures Sty(Reset, true) + "\n\n" == "\U{1B}[0m\n\n"
  {
  }

  /** What a reader sees of the same text: the escape sequences vanish. */
  lemma ErrorPlainText()
    ensures "\n" + Opening(false) == "\n[ " && Closing(false) == " ]" && Sty(Reset, false) + "\n\n" == "\n\n"
  {
  }

  lemma ErrorRender(tag: string, message: string, code: Option<Int32>)
    ensures Render(ErrorPieces(tag + "-ERROR : " + message, code))
         == "\n\U{1B}[31m\U{1B}[1m[\U{1B}[0m\U{1B}[31m " + tag + "-ERROR : " + message + " \U{1B}[1m]"
          + CodeSuffix(code) + "\U{1B}[0m\n\n"
  {
    ErrorPiecesEmit(tag + "-ERROR : " + message, code, true);
    ErrorTextShape("\n" + Opening(true), tag, message, Closing(true), CodeSuffix(code), Sty(Reset, true));
    ErrorEscapes();
  }

  lemma ErrorVisible(tag: string, message: string, code: Option<Int32>)
    ensures Visible(ErrorPieces(tag + "-ERROR : " + message, code)) == ErrorHeaderText(tag, message, code)
  {
    ErrorPiecesEmit(tag + "-ERROR : " + message, code, false);
    ErrorTextShape("\n" + Opening(false), tag, message, Closing(false), CodeSuffix(code), Sty(Reset, false));
    ErrorPlainText();
  }

  /** What `DecoratedError`'s initialiser prints: the opening line with the
      tag and message, the code when there is one, then the reset and two newlines. */
  function ErrorOutput(typ: string, message: string, code: Option<Int32>): (ps: seq<Piece>)
    ensures Render(ps) == "\n\U{1B}[31m\U{1B}[1m[\U{1B}[0m\U{1B}[31m " + ErrorTag(typ) + "-ERROR : " + message
      + " \U{1B}[1m]" + CodeSuffix(code) + "\U{1B}[0m\n\n"
    ensures Visible(ps) == ErrorHeaderText(ErrorTag(typ), message, code)
  {
    ErrorRender(ErrorTag(typ), message, code);
    ErrorVisible(ErrorTag(typ), message, code);
    ErrorPieces(ErrorTag(typ) + "-ERROR : " + message, code)
  }

  const WarningTail: seq<Piece> := [Style(Reset), Text("\n"), Style(Reset)]

  lemma WarningTailEmit(styled: bool)
    ensures Emit(WarningTail, styled) == Sty(Reset, styled) + "\n" + Sty(Reset, styled)
  {
    EmitSingle(Style(Reset), styled);
    EmitCons(Text("\n"), [Style(Reset)], styled);
    EmitCons(Style(Reset), [Text("\n"), Style(Reset)], styled);
    assert [Style(Reset)] + ([Text("\n")] + [Style(Reset)]) == WarningTail;
  }

  /** The escape sequences around a warning header, as `DecoratedWarning` writes them. */
  lemma WarningEscapes()
    ensures Opening(true) == "\U{1B}[31m" + "\U{1B}[1m[\U{1B}[0m\U{1B}[31m "
    ensures Closing(true) + Sty(Reset, true) == " \U{1B}[1m]\U{1B}[0m" && Sty(Reset, true) == "\U{1B}[0m"
    ensures Opening(false) == "[ " && Closing(false) + "\n" == " ]\n" && Sty(Reset, false) == ""
  {
  }

  /** Regrouping a warning header around its tag and message. */
  lemma WarningTextShape(o1: string, o2: string, w: string, m: string, c: string, r: string)
    ensures (o1 + o2) + (w + "-WARNING : " + m) + c + (r + "\n" + r)
         == o1 + o2 + w + "-WARNING : " + m + (c + r) + "\n" + r
  {
  }

  lemma WarningRender(w: string, message: string)
    ensures Render(Bracketed(w + "-WARNING : " + message, WarningTail))
         == "\U{1B}[31m" + "\U{1B}[1m[\U{1B}[0m\U{1B}[31m " + w + "-WARNING : " + message + " \U{1B}[1m]\U{1B}[0m"
          + "\n" + "\U{1B}[0m"
  {
    WarningTailEmit(true);
    BracketedEmit(w + "-WARNING : " + message, WarningTail, true);
    WarningEscapes();
    WarningTextShape("\U{1B}[31m", "\U{1B}[1m[\U{1B}[0m\U{1B}[31m ", w, message, Closing(true), Sty(Reset, true));
  }

  lemma WarningVisible(w: string, message: string)
    ensures Visible(Bracketed(w + "-WARNING : " + message, WarningTail)) == "[ " + w + "-WARNING : " + message + " ]\n"
  {
    WarningTailEmit(false);
    BracketedEmit(w + "-WARNING : " + message, WarningTail, false);
    WarningEscapes();
    WarningTextShape("", Opening(false), w, message, Closing(false), "");
  }

  /** What `DecoratedWarning`'s initialiser prints: a red switch, the bracketed
      line that `println` ends, then a reset. */
  function WarningOutput(typ: string, message: string): (ps: seq<Piece>)
    ensures Render(ps) == "\U{1B}[31m" + "\U{1B}[1m[\U{1B}[0m\U{1B}[31m " + WarningTag(typ) + "-WARNING : " + message
      + " \U{1B}[1m]\U{1B}[0m" + "\n" + "\U{1B}[0m"
    ensures Visible(ps) == "[ " + WarningTag(typ) + "-WARNING : " + message + " ]\n"
  {
    WarningRender(WarningTag(typ), message);
    WarningVisible(WarningTag(typ), message);
    Bracketed(WarningTag(typ) + "-WARNING : " + message, WarningTail)
  }

  /** A constructed diagnostic: the message the throwable carries, and what
      constructing it printed. */
  datatype Raised = Raised(message: string, printed: seq<Piece>)

  /** The fields an error header displays. */
  datatype HeaderFields = HeaderFields(tag: string, message: string, code: Option<Int32>)

  /** `DecoratedError(type, message, code)`. */
  function DecoratedError(typ: string, message: string, code: Option<Int32>): (e: Raised)
    ensures e.message == message
    ensures Render(e.printed) == "\n\U{1B}[31m\U{1B}[1m[\U{1B}[0m\U{1B}[31m " + ErrorTag(typ) + "-ERROR : " + message
      + " \U{1B}[1m]" + CodeSuffix(code) + "\U{1B}[0m\n\n"
    ensures Visible(e.printed) == ErrorHeaderText(ErrorTag(typ), message, code)
    ensures ParseErrorHeader(Visible(e.printed)) == Some(HeaderFields(ErrorTag(typ), message, code))
  {
    ParseErrorHeaderComplete(ErrorTag(typ), message, code);
    Raised(message, ErrorOutput(typ, message, code))
  }

  /** `DecoratedWarning(type, message)`. */
  function DecoratedWarning(typ: string, message: string): (w: Raised)
    ensures w.message == message
    ensures Render(w.printed) == "\U{1B}[31m" + "\U{1B}[1m[\U{1B}[0m\U{1B}[31m " + WarningTag(typ) + "-WARNING : " + message
      + " \U{1B}[1m]\U{1B}[0m" + "\n" + "\U{1B}[0m"
    ensures Visible(w.printed) == "[ " + WarningTag(typ) + "-WARNING : " + message + " ]\n"
  {
    Raised(message, WarningOutput(typ, message))
  }

  /** `InvalidXSFFile` of the error hierarchy: an error of type "XSF" with no code. */
  function InvalidXSFFile(message: string): (e: Raised)
    ensures e.message == message
    ensures Visible(e.printed) == "\n[ XSF-ERROR : " + message + " ]\n\n"
    ensures ParseErrorHeader(Visible(e.printed)) == Some(HeaderFields("XSF", message, None))
  {
    var t := ErrorTag("XSF");
    assert t == "XSF" by {
      assert forall i :: 0 <= i < |t| ==> t[i] == "XSF"[i];
    }
    assert ErrorHeaderText("XSF", message, None) == "\n[ XSF-ERROR : " + message + " ]\n\n";
    DecoratedError("XSF", message, None)
  }

  const LegacyPrefix: string := "[ XSF-ERROR] "

  /** `InvalidXSFFile` of the internals file: a plain `Error` whose message
      carries the prefix, and which prints nothing. */
  function LegacyInvalidXSFFile(message: string): (e: Raised)
    ensures e.printed == []
    ensures |e.message| == |LegacyPrefix| + |message|
    ensures e.message[..|LegacyPrefix|] == LegacyPrefix && e.message[|LegacyPrefix|..] == message
  {
    Raised(LegacyPrefix + message, [])
  }

  /** Position of the first occurrence of `c`. */
  function FirstIndexOf(s: string, c: char): (r: Option<nat>)
    ensures r.Some? ==> r.value < |s| && s[r.value] == c
    ensures r.Some? ==> forall i :: 0 <= i < r.value ==> s[i] != c
    ensures r.None? ==> forall i :: 0 <= i < |s| ==> s[i] != c
  {
    if |s| == 0 then None
    else if s[0] == c then Some(0)
    else
      match FirstIndexOf(s[1..], c)
      case None => None
      case Some(k) => Some(k + 1)
  }

  /** Position of the last occurrence of `c`. */
  function LastIndexOf(s: string, c: char): (r: Option<nat>)
    ensures r.Some? ==> r.value < |s| && s[r.value] == c
    ensures r.Some? ==> forall i :: r.value < i < |s| ==> s[i] != c
    ensures r.None? ==> forall i :: 0 <= i < |s| ==> s[i] != c
  {
    if |s| == 0 then None
    else if s[|s| - 1] == c then Some(|s| - 1)
    else LastIndexOf(s[..|s| - 1], c)
  }

  /** Reads a code number that fits in an `Int`. */
  function ParseCode(s: string): Option<Int32> {
    match ParseInt(s)
    case Some(n) => if -0x8000_0000 <= n < 0x8000_0000 then Some(n as Int32) else None
    case None => None
  }

  /** Splits the part after `"-ERROR : "` into the message and the optional code. */
  function ParseTail(rest: string): Option<(string, Option<Int32>)> {
    if |rest| >= 2 && rest[|rest| - 2..] == " ]" then Some((rest[..|rest| - 2], None))
    else if |rest| >= 1 && rest[|rest| - 1] == '>' then ParseCodedTail(rest)
    else None
  }

  /** Splits `message ] <Code n>` at its last space, the one before the number. */
  function ParseCodedTail(rest: string): Option<(string, Option<Int32>)> {
    match LastIndexOf(rest, ' ')
    case None => None
    case Some(j) =>
      if j < 8 || j + 1 >= |rest| || rest[j - 8..j + 1] != " ] <Code " then None
      else
        match ParseCode(rest[j + 1..|rest| - 1])
        case None => None
        case Some(n) => Some((rest[..j - 8], Some(n)))
  }

  /** Reads the text between the opening `"\n[ "` and the closing newlines. */
  function ParseErrorBody(b: string): Option<HeaderFields> {
    match FirstIndexOf(b, ' ')
    case None => None
    case Some(k) =>
      if k < 6 || k + 3 > |b| || b[k - 6..k] != "-ERROR" || b[k..k + 3] != " : " then None
      else
        match ParseTail(b[k + 3..])
        case None => None
        case Some((m, c)) => Some(HeaderFields(b[..k - 6], m, c))
  }

  /** Takes a visible error header apart into its tag, message and code. */
  function ParseErrorHeader(s: string): Option<HeaderFields> {
    if |s| < 5 || s[..3] != "\n[ " || s[|s| - 2..] != "\n\n" then None
    else ParseErrorBody(s[3..|s| - 2])
  }

  lemma FirstIndexOfAt(s: string, c: char, k: nat)
    requires k < |s| && s[k] == c
    requires forall i :: 0 <= i < k ==> s[i] != c
    ensures FirstIndexOf(s, c) == Some(k)
  {
  }

  lemma LastIndexOfAt(s: string, c: char, j: nat)
    requires j < |s| && s[j] == c
    requires forall i :: j < i < |s| ==> s[i] != c
    ensures LastIndexOf(s, c) == Some(j)
  {
  }

  lemma ParseTailNoCode(message: string)
    ensures ParseTail(message + " ]") == Some((message, None))
  {
  }

  lemma CodeTailShape(message: string, digits: string)
    requires forall i :: 0 <= i < |digits| ==> digits[i] != ' '
    ensures
      var rest := message + " ] <Code " + digits + ">";
      var j := |message| + 8;
      && rest[|rest| - 1] == '>'
      && LastIndexOf(rest, ' ') == Some(j)
      && rest[j - 8..j + 1] == " ] <Code "
      && rest[j + 1..|rest| - 1] == digits
      && rest[..j - 8] == message
  {
    var rest := message + " ] <Code " + digits + ">";
    var j := |message| + 8;
    assert rest[j] == ' ';
    assert forall i :: j < i < |rest| - 1 ==> rest[i] == digits[i - j - 1];
    LastIndexOfAt(rest, ' ', j);
    assert rest[j - 8..j + 1] == " ] <Code ";
    assert rest[j + 1..|rest| - 1] == digits;
    assert rest[..j - 8] == message;
  }

  lemma ParseTailWithCode(message: string, n: Int32)
    ensures ParseTail(message + " ]" + CodeSuffix(Some(n))) == Some((message, Some(n)))
  {
    var digits := IntToString(n as int);
    CodedTailText(message, digits);
    var rest := message + " ] <Code " + digits + ">";
    ParseIntToString(n as int);
    ParseCodedTailComplete(message, digits, n);
    assert rest[|rest| - 2..] != " ]" by {
      assert rest[|rest| - 2..][1] == '>';
    }
  }

  /** Regrouping a message and its code suffix. */
  lemma CodedTailText(message: string, digits: string)
    ensures message + " ]" + (" <Code " + digits + ">") == message + " ] <Code " + digits + ">"
  {
  }

  lemma ParseCodedTailComplete(message: string, digits: string, n: Int32)
    requires ParseInt(digits) == Some(n as int)
    requires forall i :: 0 <= i < |digits| ==> digits[i] != ' '
    ensures ParseCodedTail(message + " ] <Code " + digits + ">") == Some((message, Some(n)))
  {
    CodeTailShape(message, digits);
    assert ParseCode(digits) == Some(n);
  }

  lemma ParseTailComplete(message: string, code: Option<Int32>)
    ensures ParseTail(message + " ]" + CodeSuffix(code)) == Some((message, code))
  {
    match code
    case None =>
      assert message + " ]" + CodeSuffix(code) == message + " ]";
      ParseTailNoCode(message);
    case Some(n) =>
      ParseTailWithCode(message, n);
  }

  lemma ParseErrorBodyComplete(tag: string, tail: string)
    requires NoSpace(tag)
    ensures ParseErrorBody(tag + "-ERROR : " + tail) ==
      match ParseTail(tail)
      case None => None
      case Some((m, c)) => Some(HeaderFields(tag, m, c))
  {
    var b := tag + "-ERROR : " + tail;
    var k := |tag| + 6;
    assert b[k] == ' ';
    assert forall i :: 0 <= i < |tag| ==> b[i] == tag[i];
    FirstIndexOfAt(b, ' ', k);
    assert b[k - 6..k] == "-ERROR" && b[k..k + 3] == " : ";
    assert b[k + 3..] == tail;
    assert b[..k - 6] == tag;
  }

  lemma ParseErrorHeaderFrame(b: string)
    ensures ParseErrorHeader("\n[ " + b + "\n\n") == ParseErrorBody(b)
  {
  }

  /** A header whose tag has no space reads back as the fields it was made from. */
  lemma ParseErrorHeaderComplete(tag: string, message: string, code: Option<Int32>)
    requires NoSpace(tag)
    ensures ParseErrorHeader(ErrorHeaderText(tag, message, code)) == Some(HeaderFields(tag, message, code))
  {
    var tail := message + " ]" + CodeSuffix(code);
    var b := tag + "-ERROR : " + tail;
    HeaderTextShape(tag, message, CodeSuffix(code));
    ParseErrorHeaderFrame(b);
    ParseErrorBodyComplete(tag, tail);
    ParseTailComplete(message, code);
  }

  lemma ParseTailSoundCode(rest: string, message: string, n: Int32)
    requires ParseTail(rest) == Some((message, Some(n)))
    ensures rest == message + " ] <Code " + IntToString(n as int) + ">"
  {
    assert rest[|rest| - 1] == '>' && ParseCodedTail(rest) == Some((message, Some(n)));
    ParseCodedTailSound(rest, message, n);
  }

  lemma ParseCodedTailSound(rest: string, message: string, n: Int32)
    requires |rest| >= 1 && rest[|rest| - 1] == '>'
    requires ParseCodedTail(rest) == Some((message, Some(n)))
    ensures rest == message + " ] <Code " + IntToString(n as int) + ">"
  {
    var j := LastIndexOf(rest, ' ').value;
    var digits := rest[j + 1..|rest| - 1];
    assert ParseInt(digits) == Some(n as int);
    IntToStringOfParse(digits, n as int);
    assert rest == rest[..j - 8] + rest[j - 8..j + 1] + rest[j + 1..|rest| - 1] + [rest[|rest| - 1]];
  }

  lemma ParseTailSoundNoCode(rest: string, message: string)
    requires ParseTail(rest) == Some((message, None))
    ensures rest == message + " ]"
  {
  }

  lemma ParseTailSound(rest: string, message: string, code: Option<Int32>)
    requires ParseTail(rest) == Some((message, code))
    ensures rest == message + " ]" + CodeSuffix(code)
  {
    match code
    case None =>
      ParseTailSoundNoCode(rest, message);
    case Some(n) =>
      ParseTailSoundCode(rest, message, n);
      CodedTailText(message, IntToString(n as int));
  }

  lemma ParseErrorBodySound(b: string, f: HeaderFields)
    requires ParseErrorBody(b) == Some(f)
    ensures NoSpace(f.tag)
    ensures b == f.tag + "-ERROR : " + (f.message + " ]" + CodeSuffix(f.code))
  {
    var k := FirstIndexOf(b, ' ').value;
    var tail := b[k + 3..];
    ParseTailSound(tail, f.message, f.code);
    assert f.tag == b[..k - 6];
    assert b[k - 6..k] == "-ERROR" && b[k..k + 3] == " : ";
    assert b == b[..k - 6] + b[k - 6..k] + b[k..k + 3] + b[k + 3..];
    assert f.tag + "-ERROR" + " : " + tail == f.tag + "-ERROR : " + tail;
  }

  /** Regrouping an error header around its body. */
  lemma HeaderTextShape(tag: string, m: string, c: string)
    ensures "\n[ " + (tag + "-ERROR : " + (m + " ]" + c)) + "\n\n" == "\n[ " + tag + "-ERROR : " + m + " ]" + c + "\n\n"
  {
  }

  /** Every text the reader accepts is the header of the fields it returns, and
      the tag it returns has no space. */
  lemma ParseErrorHeaderSound(s: string, f: HeaderFields)
    requires ParseErrorHeader(s) == Some(f)
    ensures NoSpace(f.tag)
    ensures s == ErrorHeaderText(f.tag, f.message, f.code)
  {
    var b := s[3..|s| - 2];
    ParseErrorBodySound(b, f);
    assert s == s[..3] + b + s[|s| - 2..];
    HeaderTextShape(f.tag, f.message, CodeSuffix(f.code));
  }

  /** Distinct (tag, message, code) triples with space-free tags give distinct headers. */
  lemma ErrorHeaderInjective(f: HeaderFields, g: HeaderFields)
    requires NoSpace(f.tag) && NoSpace(g.tag)
    requires ErrorHeaderText(f.tag, f.message, f.code) == ErrorHeaderText(g.tag, g.message, g.code)
    ensures f == g
  {
    ParseErrorHeaderComplete(f.tag, f.message, f.code);
    ParseErrorHeaderComplete(g.tag, g.message, g.code);
  }

  lemma UppercaseFixed(s: string)
    requires forall i :: 0 <= i < |s| ==> !('a' <= s[i] <= 'z')
    ensures Uppercase(s) == s
  {
  }

  /** Because a warning keeps the spaces of its type, two different warnings can
      print the same line: the type and the message cannot be told apart. */
  lemma WarningHeaderAmbiguous()
    ensures Visible(DecoratedWarning("A", "X-WARNING : y").printed)
         == Visible(DecoratedWarning("A-WARNING : X", "y").printed)
  {
    var w := "-WARNING : ";
    assert "X-WARNING : y" == "X" + w + "y";
    assert "A-WARNING : X" == "A" + w + "X";
    UppercaseFixed("A");
    UppercaseFixed("A" + w + "X");
    assert "A" + w + ("X" + w + "y") == ("A" + w + "X") + w + "y";
  }
}
