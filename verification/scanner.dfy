/** The scanner: a state machine over the program text that groups
    characters into tokens, classifies each one (fixed vocabulary,
    identifier, constant), keeps identifiers and constants in the symbol
    table, and appends one record per token to the Program Internal Form
    (PIF). The first unclassifiable token aborts the scan. */
module Scanner {
  import opened Wrappers
  import opened StringUtils
  import opened Decimal
  import opened HashTable
  import Automata = FiniteAutomata

  /** The fixed code of every identifier and of every constant. */
  const IdentifierCode := 37
  const ConstantCode := 38

  /** The scanner's symbol table has 100 buckets. */
  const SymbolTableCapacity := 100

  datatype Category = Operator | Separator | ReservedWord

  datatype TokenInfo = TokenInfo(category: Category, code: int)

  /** Fixed vocabulary: literal token text to its category and code. */
  type Vocabulary = map<string, TokenInfo>

  /** Lines 1-11 of the vocabulary file are operators, 12-22 separators,
      the rest reserved words. */
  function CategoryOf(index: nat): Category
  {
    if index <= 11 then Operator else if index <= 22 then Separator else ReservedWord
  }

  /** The two-character text `\n` in the vocabulary file names the newline token. */
  function Unescape(line: string): string
  {
    if line == "\\n" then "\n" else line
  }

  /** `initTokens`: every line becomes a token whose code is its 1-based
      line number; a repeated line keeps its first entry. */
  function InitTokens(lines: seq<string>): (v: Vocabulary)
    ensures forall t :: t in v ==> 1 <= v[t].code <= |lines| && v[t].category == CategoryOf(v[t].code)
    decreases |lines|
  {
    if |lines| == 0 then map[]
    else
      var v := InitTokens(lines[..|lines| - 1]);
      var t := Unescape(lines[|lines| - 1]);
      if t in v then v else v[t := TokenInfo(CategoryOf(|lines|), |lines|)]
  }

  /** Line `i` (0-based) is the first one that names `t`. */
  ghost predicate FirstAt(lines: seq<string>, t: string, i: int)
  {
    && 0 <= i < |lines|
    && Unescape(lines[i]) == t
    && forall j :: 0 <= j < i ==> Unescape(lines[j]) != t
  }

  /** Every line of the vocabulary file names a token. */
  lemma {:induction false} InitTokensCovers(lines: seq<string>)
    ensures forall i :: 0 <= i < |lines| ==> Unescape(lines[i]) in InitTokens(lines)
    decreases |lines|
  {
    if |lines| > 0 {
      var front := lines[..|lines| - 1];
      InitTokensCovers(front);
      forall i | 0 <= i < |lines|
        ensures Unescape(lines[i]) in InitTokens(lines)
      {
        if i < |front| {
          assert lines[i] == front[i];
        }
      }
    }
  }

  /** Each token's code is the 1-based line of its first occurrence, and
      its category is the one of that line. */
  lemma {:induction false} InitTokensFirstLine(lines: seq<string>, t: string)
    requires t in InitTokens(lines)
    ensures FirstAt(lines, t, InitTokens(lines)[t].code - 1)
    ensures InitTokens(lines)[t].category == CategoryOf(InitTokens(lines)[t].code)
    decreases |lines|
  {
    var front := lines[..|lines| - 1];
    var before := InitTokens(front);
    if t in before {
      InitTokensFirstLine(front, t);
      var k := before[t].code - 1;
      assert InitTokens(lines)[t] == before[t];
      assert forall j :: 0 <= j <= k ==> front[j] == lines[j];
    } else {
      InitTokensCovers(front);
      forall j | 0 <= j < |lines| - 1
        ensures Unescape(lines[j]) != t
      {
        assert lines[j] == front[j];
      }
    }
  }

  /** The lexer's fixed parts: the vocabulary and the two automata. */
  datatype Lexer = Lexer(tokens: Vocabulary, identifiers: Automata.FA, integers: Automata.FA)

  /** The constructor: vocabulary first, then the identifier automaton,
      then the integer automaton; a malformed rule file aborts it. */
  function NewLexer(tokenLines: seq<string>, identifierRules: seq<string>, integerRules: seq<string>)
    : (r: Result<Lexer, Automata.FormatError>)
    requires forall k :: 0 <= k < |identifierRules| ==> IsByteText(identifierRules[k])
    requires forall k :: 0 <= k < |integerRules| ==> IsByteText(integerRules[k])
    ensures r.Ok? <==> Automata.Load(identifierRules).Ok? && Automata.Load(integerRules).Ok?
    ensures r.Ok? ==> (r.value.identifiers == Automata.Load(identifierRules).value
      && r.value.integers == Automata.Load(integerRules).value)
  {
    var identifiers :- Automata.Load(identifierRules);
    var integers :- Automata.Load(integerRules);
    Ok(Lexer(InitTokens(tokenLines), identifiers, integers))
  }

  predicate IsSeparatorOperatorReservedWord(lx: Lexer, tok: string)
  {
    tok in lx.tokens
  }

  predicate IsSeparator(lx: Lexer, tok: string)
  {
    tok in lx.tokens && lx.tokens[tok].category == Separator
  }

  predicate IsOperator(lx: Lexer, tok: string)
  {
    tok in lx.tokens && lx.tokens[tok].category == Operator
  }

  predicate IsReservedWord(lx: Lexer, tok: string)
  {
    tok in lx.tokens && lx.tokens[tok].category == ReservedWord
  }

  /** A token's category follows from the line where it first appears. */
  lemma ClassifyByLine(lines: seq<string>, lx: Lexer, i: nat)
    requires lx.tokens == InitTokens(lines)
    requires i < |lines|
    requires forall j :: 0 <= j < i ==> Unescape(lines[j]) != Unescape(lines[i])
    ensures var tok := Unescape(lines[i]);
      && IsSeparatorOperatorReservedWord(lx, tok)
      && lx.tokens[tok].code == i + 1
      && (IsOperator(lx, tok) <==> i + 1 <= 11)
      && (IsSeparator(lx, tok) <==> 12 <= i + 1 <= 22)
      && (IsReservedWord(lx, tok) <==> 23 <= i + 1)
  {
    InitTokensCovers(lines);
    var tok := Unescape(lines[i]);
    InitTokensFirstLine(lines, tok);
  }

  /** `isIdentifier`: the identifier automaton accepts the token. */
  predicate IsIdentifier(lx: Lexer, tok: string)
  {
    Automata.Accepts(lx.identifiers, tok)
  }

  /** Every character of an identifier belongs to a class of the
      identifier automaton, and the empty token is an identifier exactly
      when that automaton's initial state is final. */
  lemma IdentifierCharsClassified(lx: Lexer, tok: string)
    ensures IsIdentifier(lx, tok) ==> forall k :: 0 <= k < |tok| ==> Automata.ClassOf(lx.identifiers.alphabet, tok[k]).Some?
    ensures IsIdentifier(lx, "") <==> lx.identifiers.initial in lx.identifiers.finals
  {
    Automata.AcceptsEmpty(lx.identifiers);
  }

  /** `[-+]?[0-9]+`, matched against the whole token. */
  predicate IsIntegerLiteral(tok: string)
  {
    && |tok| > 0
    && var digits := if tok[0] == '-' || tok[0] == '+' then tok[1..] else tok;
       |digits| > 0 && AllDigits(digits)
  }

  /** `true|false`, matched against the whole token. */
  predicate IsBooleanLiteral(tok: string)
  {
    tok == "true" || tok == "false"
  }

  /** `".*"`, matched against the whole token: `.` matches no line terminator. */
  predicate IsStringLiteral(tok: string)
  {
    && |tok| >= 2
    && tok[0] == '"'
    && tok[|tok| - 1] == '"'
    && forall i :: 0 < i < |tok| - 1 ==> tok[i] != '\n' && tok[i] != '\r'
  }

  /** `isConstant`: the integer automaton accepts it, or it is an integer,
      boolean or string literal. */
  predicate IsConstant(lx: Lexer, tok: string)
  {
    || Automata.Accepts(lx.integers, tok)
    || IsIntegerLiteral(tok)
    || IsBooleanLiteral(tok)
    || IsStringLiteral(tok)
  }

  /** A constant the integer automaton rejects starts with a sign, a
      digit, a quote, `t` or `f`, and a quoted token spanning no line
      break is always a constant. */
  lemma ConstantShape(lx: Lexer, tok: string)
    ensures IsConstant(lx, tok) && !Automata.Accepts(lx.integers, tok) ==> |tok| > 0 && tok[0] in "+-0123456789\"tf"
    ensures |tok| >= 2 && tok[0] == '"' && tok[|tok| - 1] == '"' && '\n' !in tok && '\r' !in tok ==> IsConstant(lx, tok)
  {
    if |tok| >= 2 && tok[0] == '"' && tok[|tok| - 1] == '"' && '\n' !in tok && '\r' !in tok {
      assert IsStringLiteral(tok);
    }
  }

  /** `getTokenCode`: vocabulary code, else 37 for an identifier, else 38 for
      a constant; the source falls off its end otherwise, here None. The
      vocabulary takes precedence, then identifiers over constants. */
  function GetTokenCode(lx: Lexer, tok: string): (r: Option<int>)
    ensures r.None? <==> !IsSeparatorOperatorReservedWord(lx, tok) && !IsIdentifier(lx, tok) && !IsConstant(lx, tok)
    ensures IsSeparatorOperatorReservedWord(lx, tok) ==> r == Some(lx.tokens[tok].code)
    ensures r.Some? && !IsSeparatorOperatorReservedWord(lx, tok) ==>
      (r.value == IdentifierCode <==> IsIdentifier(lx, tok)) && (r.value == ConstantCode <==> !IsIdentifier(lx, tok))
  {
    if tok in lx.tokens then Some(lx.tokens[tok].code)
    else if IsIdentifier(lx, tok) then Some(IdentifierCode)
    else if IsConstant(lx, tok) then Some(ConstantCode)
    else None
  }

  /** One PIF record: display text, symbol-table position, code. */
  datatype PifRecord = PifRecord(text: string, position: Position, code: int)

  /** `genPIF` renames the three whitespace tokens and keeps any other text. */
  function DisplayText(tok: string): (text: string)
    ensures tok == "\t" ==> text == "TAB"
    ensures tok == " " ==> text == "SPACE"
    ensures tok == "\n" ==> text == "NEW_LINE"
    ensures tok != "\t" && tok != " " && tok != "\n" ==> text == tok
  {
    if tok == "\t" then "TAB" else if tok == " " then "SPACE" else if tok == "\n" then "NEW_LINE" else tok
  }

  /** Only the three renamed tokens collide with others: distinct tokens
      keep distinct texts unless one of them is `TAB`, `SPACE` or
      `NEW_LINE`, and those do collide with the whitespace they stand for. */
  lemma DisplayTextInjective(a: string, b: string)
    requires a !in {"TAB", "SPACE", "NEW_LINE"} && b !in {"TAB", "SPACE", "NEW_LINE"}
    ensures DisplayText(a) == DisplayText(b) ==> a == b
    ensures DisplayText("TAB") == DisplayText("\t") && DisplayText("SPACE") == DisplayText(" ") && DisplayText("NEW_LINE") == DisplayText("\n")
  {
    if DisplayText(a) == DisplayText(b) {
      assert DisplayText(a) !in {"TAB", "SPACE", "NEW_LINE"} ==> DisplayText(a) == a;
    }
  }

  /** A `LexicalException`: the current line and the offending token. */
  datatype LexicalError = LexicalError(line: int, lexeme: string)

  /** The exception's text. */
  function Message(e: LexicalError): (m: string)
    ensures |m| > 5 && m[..5] == "Line "
  {
    "Line " + IntToString(e.line) + ": " + e.lexeme + " is lexically incorrect"
  }

  /** The message names the line: the text between `Line ` and the first
      `:` is the decimal line number, and the token follows `: `. */
  lemma MessageNamesLine(e: LexicalError)
    ensures var m := Message(e);
      var n := IndexOf(m[5..], ':');
      && n < |m[5..]|
      && var digits := m[5..5 + n];
      && |digits| > 0
      && AllDigits(if digits[0] == '-' then digits[1..] else digits)
      && ParseInt(digits) == e.line
      && m[5 + n..] == ": " + e.lexeme + " is lexically incorrect"
  {
    var digits := IntToString(e.line);
    var tail := " " + e.lexeme + " is lexically incorrect";
    NoColon(e.line);
    assert Message(e) == "Line " + digits + [':'] + tail;
    ColonField("Line ", digits, tail);
    IntToStringRoundTrip(e.line);
    assert [':'] + tail == ": " + e.lexeme + " is lexically incorrect" by {
      assert [':'] + tail == [':'] + " " + e.lexeme + " is lexically incorrect";
      assert [':'] + " " == ": ";
    }
  }

  /** In `prefix + field + ":" + tail`, with a five-character prefix and no
      `:` in the field, the first `:` after the prefix ends the field. */
  lemma ColonField(prefix: string, field: string, tail: string)
    requires |prefix| == 5 && ':' !in field
    ensures var m := prefix + field + [':'] + tail;
      && IndexOf(m[5..], ':') == |field|
      && m[5..5 + |field|] == field
      && m[5 + |field|..] == [':'] + tail
  {
    var m := prefix + field + [':'] + tail;
    assert m[5..] == field + [':'] + tail;
    IndexAfterPrefix(field, ':', tail);
  }

  /** Decimal text holds no `:`. */
  lemma NoColon(n: int)
    ensures ':' !in IntToString(n)
  {
    var digits := IntToString(n);
    forall i | 0 <= i < |digits|
      ensures digits[i] != ':'
    {
      if n < 0 {
        assert digits[1..] == NatToString(-n);
        if i > 0 {
          assert digits[i] == digits[1..][i - 1];
        }
      }
    }
  }

  /** The scanner's mutable state: PIF so far, symbol table, line counter
      and the pending buffer. */
  datatype ScanState = ScanState(pif: seq<PifRecord>, table: Table, line: int, buffer: string)

  predicate Good(st: ScanState)
  {
    WellFormed(st.table) && IsAscii(st.buffer)
  }

  /** Every key stored before is still stored, at the same position. */
  ghost predicate KeepsPositions(before: Table, after: Table)
    requires Valid(before) && Valid(after)
  {
    forall k :: Exists(before, k) ==> Exists(after, k) && SearchElem(after, k) == SearchElem(before, k)
  }

  /** `processToken`. A vocabulary token gets position `(-1, -1)` and its
      code; an identifier or constant is inserted only if absent and gets
      its table position; anything else is a lexical error on the current
      line, and nothing is appended. */
  function ProcessToken(lx: Lexer, st: ScanState, tok: string): (r: Result<ScanState, LexicalError>)
    requires WellFormed(st.table) && IsAscii(tok)
    ensures r.Err? <==> GetTokenCode(lx, tok).None?
    ensures r.Err? ==> r.error == LexicalError(st.line, tok)
    ensures r.Ok? ==> WellFormed(r.value.table) && KeepsPositions(st.table, r.value.table)
    ensures r.Ok? ==> |r.value.table.buckets| == |st.table.buckets|
    ensures r.Ok? ==> r.value.line == st.line && r.value.buffer == st.buffer
    ensures r.Ok? ==> r.value.pif == st.pif + [PifRecord(DisplayText(tok),
      if tok in lx.tokens then Missing else SearchElem(r.value.table, tok), GetTokenCode(lx, tok).value)]
    ensures r.Ok? && tok in lx.tokens ==> r.value.table == st.table
    ensures r.Ok? && tok !in lx.tokens ==> (Exists(r.value.table, tok)
      && r.value.table == (if Exists(st.table, tok) then st.table else Insert(st.table, tok)))
  {
    if tok in lx.tokens then
      Ok(st.(pif := st.pif + [PifRecord(DisplayText(tok), Missing, lx.tokens[tok].code)]))
    else if IsIdentifier(lx, tok) || IsConstant(lx, tok) then
      var table := if Exists(st.table, tok) then st.table else Insert(st.table, tok);
      SymbolInsertion(st.table, tok);
      var code := if IsIdentifier(lx, tok) then IdentifierCode else ConstantCode;
      Ok(st.(table := table, pif := st.pif + [PifRecord(DisplayText(tok), SearchElem(table, tok), code)]))
    else
      Err(LexicalError(st.line, tok))
  }

  /** Insert-if-absent keeps the table well formed, stores the key, and
      moves nothing. */
  lemma SymbolInsertion(t: Table, key: string)
    requires WellFormed(t)
    ensures var r := if Exists(t, key) then t else Insert(t, key);
      WellFormed(r) && Exists(r, key) && KeepsPositions(t, r)
  {
    if !Exists(t, key) {
      InsertAbsentWellFormed(t, key);
      InsertAbsentThenSearch(t, key);
      forall k | Exists(t, k)
        ensures Exists(Insert(t, key), k) && SearchElem(Insert(t, key), k) == SearchElem(t, k)
      {
        InsertKeepsOtherPositions(t, key, k);
      }
    }
  }

  /** A second occurrence of an identifier or constant gets the position of
      the first and leaves the table as it was. */
  lemma RepeatedSymbolSamePosition(lx: Lexer, st: ScanState, tok: string)
    requires WellFormed(st.table) && IsAscii(tok)
    requires tok !in lx.tokens && (IsIdentifier(lx, tok) || IsConstant(lx, tok))
    ensures var first := ProcessToken(lx, st, tok);
      var second := ProcessToken(lx, first.value, tok);
      && second.Ok?
      && second.value.table == first.value.table
      && second.value.pif[|second.value.pif| - 1].position == first.value.pif[|first.value.pif| - 1].position
      && multiset(Chain(second.value.table, tok))[tok] == 1
  {
    var first := ProcessToken(lx, st, tok);
    WellFormedOnce(first.value.table, tok);
  }

  /** A buffered token, if any, is processed and the buffer emptied. */
  function Flush(lx: Lexer, st: ScanState): (r: Result<ScanState, LexicalError>)
    requires Good(st)
    ensures r.Ok? ==> Good(r.value) && r.value.buffer == "" && r.value.line == st.line
    ensures r.Ok? ==> st.pif <= r.value.pif && KeepsPositions(st.table, r.value.table)
    ensures r.Ok? ==> |r.value.table.buckets| == |st.table.buckets|
    ensures |st.buffer| == 0 ==> r == Ok(st)
    ensures r.Err? ==> r.error == LexicalError(st.line, st.buffer) && GetTokenCode(lx, st.buffer).None?
  {
    if |st.buffer| == 0 then Ok(st)
    else
      var processed :- ProcessToken(lx, st, st.buffer);
      Ok(processed.(buffer := ""))
  }

  /** A delimiting token: the buffer is flushed first, then the token
      itself is processed. */
  function FlushAndEmit(lx: Lexer, st: ScanState, tok: string): (r: Result<ScanState, LexicalError>)
    requires Good(st) && IsAscii(tok)
    ensures r.Ok? ==> Good(r.value) && r.value.buffer == "" && r.value.line == st.line
    ensures r.Ok? ==> st.pif < r.value.pif && KeepsPositions(st.table, r.value.table)
    ensures r.Ok? ==> |r.value.table.buckets| == |st.table.buckets|
    ensures |st.buffer| == 0 ==> r == ProcessToken(lx, st, tok)
    ensures r.Err? ==> r.error.line == st.line && (r.error.lexeme == st.buffer || r.error.lexeme == tok)
    ensures r.Err? ==> GetTokenCode(lx, r.error.lexeme).None?
  {
    var flushed :- Flush(lx, st);
    ProcessToken(lx, flushed, tok)
  }

  /** `scan` from a given state over the rest of the text:
      a tab is dropped; `<` and `>` always consume the next character too,
      emitting `<<`/`>>` after flushing the buffer when it repeats them and
      discarding both otherwise (at the end of the text the failed read
      leaves the character unchanged, so a final `<` emits `<<`); a
      separator flushes the buffer and is then a token of its own, the line
      counter moving on at a newline before the flush; any other character
      is buffered. */
  function ScanFrom(lx: Lexer, st: ScanState, text: string): (r: Result<ScanState, LexicalError>)
    requires Good(st) && IsAscii(text)
    ensures r.Ok? ==> Good(r.value) && st.pif <= r.value.pif && st.line <= r.value.line
    ensures r.Ok? ==> KeepsPositions(st.table, r.value.table)
    ensures r.Ok? ==> |r.value.table.buckets| == |st.table.buckets|
    ensures r.Err? ==> GetTokenCode(lx, r.error.lexeme).None?
    ensures r.Err? ==> st.line <= r.error.line <= st.line + Count(text, '\n')
    decreases |text|
  {
    if |text| == 0 then Ok(st)
    else
      var c := text[0];
      assert c in text;
      SliceChars(text, 1, |text|);
      assert text[1..|text|] == text[1..];
      if c == '\t' then ScanFrom(lx, st, text[1..])
      else if c == '<' || c == '>' then
        var next := if |text| > 1 then text[1] else c;
        var rest := if |text| > 1 then text[2..] else [];
        SliceChars(text, if |text| > 1 then 2 else |text|, |text|);
        assert rest == text[(if |text| > 1 then 2 else |text|)..|text|];
        assert Count(rest, '\n') <= Count(text, '\n') by {
          if |text| > 1 {
            assert text[1..][1..] == rest;
          }
        }
        if next == c then
          var emitted :- FlushAndEmit(lx, st, [c, c]);
          ScanFrom(lx, emitted, rest)
        else ScanFrom(lx, st, rest)
      else if IsSeparator(lx, [c]) then
        var counted := if c == '\n' then st.(line := st.line + 1) else st;
        var emitted :- FlushAndEmit(lx, counted, [c]);
        ScanFrom(lx, emitted, text[1..])
      else
        ScanFrom(lx, st.(buffer := st.buffer + [c]), text[1..])
  }

  /** The result of a whole scan: the PIF and the symbol table. */
  datatype ScanOutput = ScanOutput(pif: seq<PifRecord>, table: Table)

  function StartState(): ScanState
  {
    ScanState([], New(SymbolTableCapacity), 1, "")
  }

  /** `scan()` over the whole program: lines are counted from 1, the symbol
      table starts empty, and a token still buffered at the end of the text
      is never processed. */
  function Scan(lx: Lexer, program: string): (r: Result<ScanOutput, LexicalError>)
    requires IsAscii(program)
    ensures r.Ok? ==> WellFormed(r.value.table) && |r.value.table.buckets| == SymbolTableCapacity
    ensures r.Err? ==> GetTokenCode(lx, r.error.lexeme).None? && 1 <= r.error.line <= 1 + Count(program, '\n')
  {
    var st := StartState();
    assert WellFormed(st.table);
    var last :- ScanFrom(lx, st, program);
    Ok(ScanOutput(last.pif, last.table))
  }

  // ---------------------------------------------------------------------
  // Properties of the scan

  /** A record's position is `(-1, -1)` or the place of a stored key
      that the record displays. */
  predicate Resolves(t: Table, rec: PifRecord)
  {
    || rec.position == Missing
    || (&& 0 <= rec.position.bucket < |t.buckets|
        && 0 <= rec.position.offset < |t.buckets[rec.position.bucket]|
        && DisplayText(t.buckets[rec.position.bucket][rec.position.offset]) == rec.text)
  }

  predicate AllResolve(st: ScanState)
  {
    forall i :: 0 <= i < |st.pif| ==> Resolves(st.table, st.pif[i])
  }

  /** Insertion only appends, so a position that held a key still does. */
  lemma InsertKeepsResolved(t: Table, key: string, rec: PifRecord)
    requires Valid(t) && Resolves(t, rec)
    ensures Resolves(Insert(t, key), rec)
  {
    if rec.position != Missing {
      var b := rec.position.bucket;
      var r := Insert(t, key);
      if b == BucketOf(t, key) {
        assert r.buckets[b] == t.buckets[b] + [key];
      }
    }
  }

  lemma ProcessTokenResolves(lx: Lexer, st: ScanState, tok: string)
    requires WellFormed(st.table) && IsAscii(tok) && AllResolve(st)
    ensures var r := ProcessToken(lx, st, tok); r.Ok? ==> AllResolve(r.value)
  {
    var r := ProcessToken(lx, st, tok);
    if r.Ok? && tok !in lx.tokens {
      var t := r.value.table;
      forall i | 0 <= i < |st.pif|
        ensures Resolves(t, st.pif[i])
      {
        if !Exists(st.table, tok) {
          InsertKeepsResolved(st.table, tok, st.pif[i]);
        }
      }
      var p := SearchElem(t, tok);
      assert t.buckets[p.bucket][p.offset] == tok;
      assert r.value.pif[|st.pif|].position == p;
    }
  }

  lemma FlushAndEmitResolves(lx: Lexer, st: ScanState, tok: string)
    requires Good(st) && IsAscii(tok) && AllResolve(st)
    ensures var r := FlushAndEmit(lx, st, tok); r.Ok? ==> AllResolve(r.value)
  {
    var flushed := Flush(lx, st);
    if |st.buffer| > 0 {
      ProcessTokenResolves(lx, st, st.buffer);
    }
    if flushed.Ok? {
      ProcessTokenResolves(lx, flushed.value, tok);
    }
  }

  /** The scan keeps every PIF position pointing at the table entry that
      the record displays. */
  lemma {:induction false} ScanFromResolves(lx: Lexer, st: ScanState, text: string)
    requires Good(st) && IsAscii(text) && AllResolve(st)
    ensures var r := ScanFrom(lx, st, text); r.Ok? ==> AllResolve(r.value)
    decreases |text|
  {
    if |text| > 0 {
      var c := text[0];
      assert c in text;
      SliceChars(text, 1, |text|);
      assert text[1..|text|] == text[1..];
      if c == '\t' {
        ScanFromResolves(lx, st, text[1..]);
      } else if c == '<' || c == '>' {
        var next := if |text| > 1 then text[1] else c;
        var rest := if |text| > 1 then text[2..] else [];
        SliceChars(text, if |text| > 1 then 2 else |text|, |text|);
        assert rest == text[(if |text| > 1 then 2 else |text|)..|text|];
        if next == c {
          FlushAndEmitResolves(lx, st, [c, c]);
          var emitted := FlushAndEmit(lx, st, [c, c]);
          if emitted.Ok? {
            ScanFromResolves(lx, emitted.value, rest);
          }
        } else {
          ScanFromResolves(lx, st, rest);
        }
      } else if IsSeparator(lx, [c]) {
        var counted := if c == '\n' then st.(line := st.line + 1) else st;
        FlushAndEmitResolves(lx, counted, [c]);
        var emitted := FlushAndEmit(lx, counted, [c]);
        if emitted.Ok? {
          ScanFromResolves(lx, emitted.value, text[1..]);
        }
      } else {
        ScanFromResolves(lx, st.(buffer := st.buffer + [c]), text[1..]);
      }
    }
  }

  /** After a whole scan, every identifier or constant record names the
      symbol-table entry it was given: its position holds a key that the
      record displays. */
  lemma ScanPositionsResolve(lx: Lexer, program: string)
    requires IsAscii(program)
    ensures var r := Scan(lx, program);
      r.Ok? ==> forall i :: 0 <= i < |r.value.pif| ==> Resolves(r.value.table, r.value.pif[i])
  {
    var st := StartState();
    assert WellFormed(st.table);
    ScanFromResolves(lx, st, program);
  }

  /** Text with no separator, no `<` and no `>` only fills the buffer (tabs
      dropped): nothing is emitted for it. */
  lemma {:induction false} PendingBufferNotProcessed(lx: Lexer, st: ScanState, text: string)
    requires Good(st) && IsAscii(text)
    requires forall i :: 0 <= i < |text| ==> text[i] != '<' && text[i] != '>' && !IsSeparator(lx, [text[i]])
    ensures ScanFrom(lx, st, text) == Ok(st.(buffer := st.buffer + RemoveFromString(text, '\t')))
    decreases |text|
  {
    if |text| > 0 {
      var c := text[0];
      assert c in text;
      SliceChars(text, 1, |text|);
      assert text[1..|text|] == text[1..];
      assert forall i :: 0 <= i < |text[1..]| ==> text[1..][i] == text[i + 1];
      if c == '\t' {
        PendingBufferNotProcessed(lx, st, text[1..]);
        assert RemoveFromString(text, '\t') == RemoveFromString(text[1..], '\t');
      } else {
        assert IsAscii([c]);
        var st' := st.(buffer := st.buffer + [c]);
        assert IsAscii(st'.buffer);
        PendingBufferNotProcessed(lx, st', text[1..]);
        assert RemoveFromString(text, '\t') == [c] + RemoveFromString(text[1..], '\t');
        assert st.buffer + RemoveFromString(text, '\t') == st'.buffer + RemoveFromString(text[1..], '\t');
      }
    } else {
      assert st.buffer + RemoveFromString(text, '\t') == st.buffer;
    }
  }

  /** `<<` (and `>>`) flushes the buffer and is emitted as one token. */
  lemma ShiftOperator(lx: Lexer, st: ScanState, c: char, rest: string)
    requires Good(st) && IsAscii(rest) && (c == '<' || c == '>')
    ensures var emitted := FlushAndEmit(lx, st, [c, c]);
      ScanFrom(lx, st, [c, c] + rest) ==
        if emitted.Err? then Err(emitted.error) else ScanFrom(lx, emitted.value, rest)
  {
    var text := [c, c] + rest;
    assert text[0] == c && text[1] == c && text[2..] == rest;
  }

  /** A lone `<` or `>` swallows the character after it: both vanish. */
  lemma LoneAngleSwallowed(lx: Lexer, st: ScanState, c: char, x: char, rest: string)
    requires Good(st) && IsAscii(rest) && x as int < 128 && (c == '<' || c == '>') && x != c
    ensures ScanFrom(lx, st, [c, x] + rest) == ScanFrom(lx, st, rest)
  {
    var text := [c, x] + rest;
    assert text[0] == c && text[1] == x && text[2..] == rest;
  }

  /** A `<` or `>` that ends the text is read as doubled. */
  lemma TrailingAngleDoubled(lx: Lexer, st: ScanState, c: char)
    requires Good(st) && (c == '<' || c == '>')
    ensures ScanFrom(lx, st, [c]) == FlushAndEmit(lx, st, [c, c])
  {
  }

  /** The line counter moves on before the buffer is flushed: a bad token
      ending line n is reported on line n + 1. */
  lemma NewlineCountsBeforeFlush(lx: Lexer, st: ScanState, rest: string)
    requires Good(st) && IsAscii(rest)
    requires IsSeparator(lx, "\n")
    requires |st.buffer| > 0 && GetTokenCode(lx, st.buffer).None?
    ensures ScanFrom(lx, st, "\n" + rest) == Err(LexicalError(st.line + 1, st.buffer))
  {
    var counted := st.(line := st.line + 1);
    assert ['\n'] == "\n";
    UnclassifiedBufferFails(lx, counted, "\n");
    SeparatorStep(lx, st, '\n', rest);
  }

  /** A buffered token nothing classifies aborts the flush before the
      delimiter is looked at. */
  lemma UnclassifiedBufferFails(lx: Lexer, st: ScanState, tok: string)
    requires Good(st) && IsAscii(tok)
    requires |st.buffer| > 0 && GetTokenCode(lx, st.buffer).None?
    ensures FlushAndEmit(lx, st, tok) == Err(LexicalError(st.line, st.buffer))
  {
  }

  /** A tab is dropped without flushing anything. */
  lemma TabDropped(lx: Lexer, st: ScanState, rest: string)
    requires Good(st) && IsAscii(rest)
    ensures ScanFrom(lx, st, "\t" + rest) == ScanFrom(lx, st, rest)
  {
    var text := "\t" + rest;
    assert text[0] == '\t' && text[1..] == rest;
  }

  /** The first identifier goes to offset 0 of its bucket in an empty table. */
  lemma FirstIdentifierPosition(lx: Lexer, st: ScanState, tok: string)
    requires st.table == New(SymbolTableCapacity) && IsAscii(tok)
    requires tok !in lx.tokens && IsIdentifier(lx, tok)
    requires tok != "\t" && tok != " " && tok != "\n"
    ensures WellFormed(st.table)
    ensures ProcessToken(lx, st, tok) == Ok(st.(
      table := Insert(st.table, tok),
      pif := st.pif + [PifRecord(tok, Position(Hash(tok, SymbolTableCapacity), 0), IdentifierCode)]))
  {
    var t := Insert(st.table, tok);
    assert Chain(st.table, tok) == [];
    assert Chain(t, tok) == [tok];
    assert SearchElem(t, tok) == Position(Hash(tok, SymbolTableCapacity), 0);
  }

  /** `x;` with `;` a separator and `x` an identifier: the identifier goes to
      offset 0 of its bucket, then `;` follows with position `(-1, -1)`. */
  lemma ScanIdentifierThenSeparator(lx: Lexer)
    requires IsSeparator(lx, ";") && "x" !in lx.tokens && IsIdentifier(lx, "x")
    ensures var t := Insert(New(SymbolTableCapacity), "x");
      Scan(lx, "x;") == Ok(ScanOutput(
        [PifRecord("x", Position(Hash("x", SymbolTableCapacity), 0), IdentifierCode),
         PifRecord(";", Missing, lx.tokens[";"].code)],
        t))
  {
    var st := StartState();
    var st1 := st.(buffer := "x");
    FirstIdentifierPosition(lx, st1, "x");
    var t := Insert(st.table, "x");
    var record := PifRecord("x", Position(Hash("x", SymbolTableCapacity), 0), IdentifierCode);
    assert [] + [record] == [record];
    var flushed := ScanState([record], t, 1, "");
    assert Flush(lx, st1) == Ok(flushed);
    var emitted := flushed.(pif := [record, PifRecord(";", Missing, lx.tokens[";"].code)]);
    assert [record] + [PifRecord(";", Missing, lx.tokens[";"].code)] == emitted.pif;
    assert ProcessToken(lx, flushed, ";") == Ok(emitted);
    assert [';'] == ";";
    assert FlushAndEmit(lx, st1, ";") == Ok(emitted);
    SeparatorStep(lx, st1, ';', "");
    assert [';'] + "" == ";";
    assert ScanFrom(lx, emitted, "") == Ok(emitted);
    assert ['x'] + ";" == "x;" && st.buffer + ['x'] == "x";
    BufferOne(lx, st, 'x', ";");
    assert ScanFrom(lx, st, "x;") == Ok(emitted);
  }

  /** A non-delimiting character is buffered. */
  lemma BufferOne(lx: Lexer, st: ScanState, c: char, rest: string)
    requires Good(st) && IsAscii(rest) && c as int < 128
    requires c != '\t' && c != '<' && c != '>' && !IsSeparator(lx, [c])
    ensures ScanFrom(lx, st, [c] + rest) == ScanFrom(lx, st.(buffer := st.buffer + [c]), rest)
  {
    var text := [c] + rest;
    assert text[0] == c && text[1..] == rest;
  }

  /** A separator anywhere in the text: the line counter moves on at a
      newline, the buffer is flushed and the separator emitted, and the
      scan goes on with the rest of the text; an error in the flush or the
      separator ends the scan. */
  lemma SeparatorStep(lx: Lexer, st: ScanState, c: char, rest: string)
    requires Good(st) && c as int < 128 && IsAscii(rest)
    requires c != '\t' && c != '<' && c != '>' && IsSeparator(lx, [c])
    ensures var counted := if c == '\n' then st.(line := st.line + 1) else st;
      var step := FlushAndEmit(lx, counted, [c]);
      ScanFrom(lx, st, [c] + rest) == if step.Err? then Err(step.error) else ScanFrom(lx, step.value, rest)
  {
    var text := [c] + rest;
    assert text[0] == c && text[1..] == rest;
    assert IsAscii(text) by {
      assert forall x :: x in text ==> x == c || x in rest;
    }
  }

  /** `<<` registered as an operator scans to a single record. */
  lemma ScanShiftSingleRecord(lx: Lexer)
    requires IsOperator(lx, "<<")
    ensures Scan(lx, "<<") == Ok(ScanOutput([PifRecord("<<", Missing, lx.tokens["<<"].code)], New(SymbolTableCapacity)))
  {
    var st := StartState();
    assert WellFormed(st.table);
    var text := "<<";
    assert text[0] == '<' && text[1] == '<' && text[2..] == [];
    assert ['<', '<'] == "<<";
    assert DisplayText("<<") == "<<";
    var emitted := st.(pif := [PifRecord("<<", Missing, lx.tokens["<<"].code)]);
    assert GetTokenCode(lx, "<<") == Some(lx.tokens["<<"].code);
    assert [] + [PifRecord("<<", Missing, lx.tokens["<<"].code)] == [PifRecord("<<", Missing, lx.tokens["<<"].code)];
    assert ProcessToken(lx, st, "<<") == Ok(emitted);
    assert FlushAndEmit(lx, st, "<<") == Ok(emitted);
    assert ScanFrom(lx, st, text) == ScanFrom(lx, emitted, []);
  }
}
