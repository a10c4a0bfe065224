/** A context-free grammar read from a sectioned text file: non-terminals,
    `$`, terminals, `$`, start symbol, `$`, productions `A -> x y z`. The
    loader checks two things as it reads; `CheckCFG` checks four. */
module Grammar {
  import opened StringUtils

  /** `isspace` in the "C" locale: tab, newline, vertical tab, form feed,
      carriage return and space. */
  predicate IsSpace(c: char)
  {
    c == ' ' || '\t' <= c <= '\r'
  }

  predicate NoSpace(w: string)
  {
    forall i :: 0 <= i < |w| ==> !IsSpace(w[i])
  }

  /** The leading whitespace skipped by `>>`. */
  function DropSpaces(s: string): (r: string)
    ensures |r| <= |s|
    ensures |r| > 0 ==> !IsSpace(r[0])
  {
    if |s| == 0 || !IsSpace(s[0]) then s else DropSpaces(s[1..])
  }

  /** Length of the word that starts `s`: up to the first whitespace. */
  function WordEnd(s: string): (i: nat)
    ensures i <= |s|
    ensures i < |s| ==> IsSpace(s[i])
    ensures forall j :: 0 <= j < i ==> !IsSpace(s[j])
  {
    if |s| == 0 || IsSpace(s[0]) then 0 else 1 + WordEnd(s[1..])
  }

  /** `splitProduction`: the words `iss >> symbol` extracts one by one. */
  function SplitProduction(s: string): (words: seq<string>)
    ensures forall k :: 0 <= k < |words| ==> |words[k]| > 0 && NoSpace(words[k])
    decreases |s|
  {
    var t := DropSpaces(s);
    if |t| == 0 then []
    else
      var i := WordEnd(t);
      var w := t[..i];
      assert |w| > 0 && NoSpace(w) by {
        assert forall j :: 0 <= j < |w| ==> w[j] == t[j];
      }
      var rest := SplitProduction(t[i..]);
      assert forall k :: 0 <= k < |rest| ==> ([w] + rest)[k + 1] == rest[k];
      [w] + rest
  }

  /** `remove_if(..., isspace)` followed by `erase`. */
  function StripSpaces(s: string): (r: string)
    ensures NoSpace(r) && |r| <= |s|
  {
    if |s| == 0 then ""
    else if IsSpace(s[0]) then StripSpaces(s[1..])
    else [s[0]] + StripSpaces(s[1..])
  }

  /** The words one after another, with nothing between them. */
  function Concat(words: seq<string>): string
  {
    if |words| == 0 then "" else words[0] + Concat(words[1..])
  }

  lemma {:induction false} StripAppend(a: string, b: string)
    ensures StripSpaces(a + b) == StripSpaces(a) + StripSpaces(b)
    decreases |a|
  {
    if |a| == 0 {
      assert a + b == b;
    } else {
      assert (a + b)[0] == a[0] && (a + b)[1..] == a[1..] + b;
      StripAppend(a[1..], b);
    }
  }

  lemma {:induction false} StripNoSpace(w: string)
    requires NoSpace(w)
    ensures StripSpaces(w) == w
    decreases |w|
  {
    if |w| > 0 {
      StripNoSpace(w[1..]);
      assert w == [w[0]] + w[1..];
    }
  }

  /** Leading whitespace contributes nothing once spaces are stripped. */
  lemma {:induction false} StripDropped(s: string)
    ensures StripSpaces(s) == StripSpaces(DropSpaces(s))
    decreases |s|
  {
    if |s| > 0 && IsSpace(s[0]) {
      StripDropped(s[1..]);
    }
  }

  /** Splitting loses only the whitespace: the words, glued together, are
      the text with its whitespace removed. */
  lemma {:induction false} SplitKeepsContent(s: string)
    ensures Concat(SplitProduction(s)) == StripSpaces(s)
    decreases |s|
  {
    var t := DropSpaces(s);
    StripDropped(s);
    if |t| > 0 {
      var i := WordEnd(t);
      var w, rest := t[..i], t[i..];
      assert t == w + rest;
      StripAppend(w, rest);
      StripNoSpace(w);
      SplitKeepsContent(rest);
      var words := SplitProduction(s);
      assert words == [w] + SplitProduction(rest);
      assert words[1..] == SplitProduction(rest);
    }
  }

  /** Words free of whitespace, joined with single spaces, split back into
      the same words. */
  lemma {:induction false} SplitJoin(words: seq<string>)
    requires forall k :: 0 <= k < |words| ==> |words[k]| > 0 && NoSpace(words[k])
    ensures SplitProduction(Join(words, ' ')) == words
    decreases |words|
  {
    if |words| > 0 {
      var w := words[0];
      var s := Join(words, ' ');
      WordPrefix(w, if |words| == 1 then "" else [' '] + Join(words[1..], ' '));
      if |words| == 1 {
        assert s == w + "";
        assert DropSpaces("") == "";
      } else {
        var rest := Join(words[1..], ' ');
        assert s == w + ([' '] + rest);
        assert s[|w|..] == [' '] + rest;
        assert DropSpaces([' '] + rest) == DropSpaces(rest) by {
          assert ([' '] + rest)[1..] == rest;
        }
        SplitJoin(words[1..]);
        assert SplitProduction([' '] + rest) == SplitProduction(rest);
        assert words == [w] + words[1..];
      }
    }
  }

  /** A word followed by whitespace or nothing is the first word. */
  lemma WordPrefix(w: string, tail: string)
    requires |w| > 0 && NoSpace(w)
    requires |tail| == 0 || IsSpace(tail[0])
    ensures DropSpaces(w + tail) == w + tail
    ensures WordEnd(w + tail) == |w|
    ensures (w + tail)[..|w|] == w && (w + tail)[|w|..] == tail
  {
    var s := w + tail;
    assert s[0] == w[0];
    assert forall j :: 0 <= j < |w| ==> s[j] == w[j];
    assert forall j :: 0 <= j < |w| ==> !IsSpace(s[j]);
    assert |tail| > 0 ==> IsSpace(s[|w|]);
  }

  /** Whitespace before, after or between the words does not matter. */
  lemma SplitNormalizes(s: string)
    ensures SplitProduction(Join(SplitProduction(s), ' ')) == SplitProduction(s)
  {
    SplitJoin(SplitProduction(s));
  }

  // ---------------------------------------------------------------------
  // The grammar

  /** Productions map each left-hand side to its right-hand sides, in
      file order; each right-hand side is a sequence of symbols. */
  datatype Grammar = Grammar(
    nonTerminals: set<string>,
    terminals: set<string>,
    startSymbol: string,
    productions: map<string, seq<seq<string>>>)

  /** The constructor: everything empty, the start symbol `""`. */
  const Empty := Grammar({}, {}, "", map[])

  predicate IsTerminal(g: Grammar, symbol: string)
  {
    symbol in g.terminals
  }

  predicate IsNonTerminal(g: Grammar, symbol: string)
  {
    symbol in g.nonTerminals
  }

  /** `line.find("->")`: the first arrow, or `|line|` when there is none. */
  predicate ArrowAt(line: string, i: int)
  {
    0 <= i && i + 1 < |line| && line[i] == '-' && line[i + 1] == '>'
  }

  function FindArrow(line: string): (i: nat)
    ensures i == |line| || ArrowAt(line, i)
    ensures forall j :: 0 <= j < i ==> !ArrowAt(line, j)
  {
    if |line| < 2 then |line|
    else if line[0] == '-' && line[1] == '>' then 0
    else
      var i := FindArrow(line[1..]);
      assert forall j :: 0 < j <= i ==> (ArrowAt(line, j) <==> ArrowAt(line[1..], j - 1));
      1 + i
  }

  /** `productions[lhs].push_back(rhs)`: `operator[]` starts an absent key
      with no alternatives. */
  function AddProduction(p: map<string, seq<seq<string>>>, lhs: string, rhs: seq<string>)
    : (r: map<string, seq<seq<string>>>)
    ensures r.Keys == p.Keys + {lhs}
    ensures r[lhs] == (if lhs in p then p[lhs] else []) + [rhs]
    ensures forall k :: k in p && k != lhs ==> r[k] == p[k]
  {
    p[lhs := (if lhs in p then p[lhs] else []) + [rhs]]
  }

  /** The shape every loaded grammar has: productions only for declared
      non-terminals, and right-hand sides made of non-empty, space-free
      symbols. */
  ghost predicate Loaded(g: Grammar)
  {
    && (forall k :: k in g.productions ==> k in g.nonTerminals)
    && (forall k, i :: k in g.productions && 0 <= i < |g.productions[k]| ==>
          forall j :: 0 <= j < |g.productions[k][i]| ==>
            |g.productions[k][i][j]| > 0 && NoSpace(g.productions[k][i][j]))
  }

  /** Every alternative already there is still there, in the same place. */
  ghost predicate Extends(g: Grammar, h: Grammar)
  {
    && g.nonTerminals <= h.nonTerminals
    && g.terminals <= h.terminals
    && forall k :: k in g.productions ==> k in h.productions && g.productions[k] <= h.productions[k]
  }

  /** The reading loop of `readFromFile` from a given section on. Empty and
      `#` lines are skipped, `$` moves to the next section; section 0 lines
      are non-terminals, section 1 terminals, section 2 the start symbol
      (which must be a declared non-terminal), section 3 productions (which
      need an arrow and a declared non-terminal before it), and later
      sections are ignored. The first failure stops the loop with `false`,
      keeping what was read so far. */
  function LoadFrom(g: Grammar, section: nat, lines: seq<string>): (r: (Grammar, bool))
    requires Loaded(g)
    ensures Loaded(r.0) && Extends(g, r.0)
    ensures section >= 1 ==> r.0.nonTerminals == g.nonTerminals
    ensures section >= 2 ==> r.0.terminals == g.terminals
    ensures r.0.startSymbol == g.startSymbol || r.0.startSymbol in r.0.nonTerminals
    decreases |lines|
  {
    if |lines| == 0 then (g, true)
    else
      var line := lines[0];
      if |line| == 0 || line[0] == '#' then LoadFrom(g, section, lines[1..])
      else if line == "$" then LoadFrom(g, section + 1, lines[1..])
      else if section == 0 then LoadFrom(g.(nonTerminals := g.nonTerminals + {line}), section, lines[1..])
      else if section == 1 then LoadFrom(g.(terminals := g.terminals + {line}), section, lines[1..])
      else if section == 2 then
        if line in g.nonTerminals then LoadFrom(g.(startSymbol := line), section, lines[1..])
        else (g, false)
      else if section == 3 then
        var arrow := FindArrow(line);
        if arrow == |line| then (g, false)
        else
          var lhs := StripSpaces(line[..arrow]);
          if lhs !in g.nonTerminals then (g, false)
          else
            var p := AddProduction(g.productions, lhs, SplitProduction(line[arrow + 2..]));
            LoadFrom(g.(productions := p), section, lines[1..])
      else LoadFrom(g, section, lines[1..])
  }

  /** `readFromFile` over the file's lines: the sets and the productions are
      cleared first, the start symbol is not. */
  function ReadFromFile(g: Grammar, lines: seq<string>): (r: (Grammar, bool))
    ensures Loaded(r.0)
    ensures r.0.startSymbol == g.startSymbol || r.0.startSymbol in r.0.nonTerminals
  {
    LoadFrom(g.(nonTerminals := {}, terminals := {}, productions := map[]), 0, lines)
  }

  /** Past the productions section nothing is read and nothing fails. */
  lemma {:induction false} LaterSectionsIgnored(g: Grammar, section: nat, lines: seq<string>)
    requires Loaded(g) && section >= 4
    ensures LoadFrom(g, section, lines) == (g, true)
    decreases |lines|
  {
    if |lines| > 0 {
      if lines[0] == "$" {
        LaterSectionsIgnored(g, section + 1, lines[1..]);
      } else {
        LaterSectionsIgnored(g, section, lines[1..]);
      }
    }
  }

  /** Blank and comment lines change nothing. */
  lemma {:induction false} CommentsIgnored(g: Grammar, section: nat, lines: seq<string>)
    requires Loaded(g)
    requires forall k :: 0 <= k < |lines| ==> |lines[k]| == 0 || lines[k][0] == '#'
    ensures LoadFrom(g, section, lines) == (g, true)
    decreases |lines|
  {
    if |lines| > 0 {
      CommentsIgnored(g, section, lines[1..]);
    }
  }

  /** A start-symbol line naming no declared non-terminal stops the load. */
  lemma UndeclaredStartFails(g: Grammar, line: string, rest: seq<string>)
    requires Loaded(g) && |line| > 0 && line[0] != '#' && line != "$"
    requires line !in g.nonTerminals
    ensures LoadFrom(g, 2, [line] + rest) == (g, false)
  {
    assert ([line] + rest)[0] == line;
  }

  /** A production line without an arrow stops the load. */
  lemma MissingArrowFails(g: Grammar, line: string, rest: seq<string>)
    requires Loaded(g) && |line| > 0 && line[0] != '#' && line != "$"
    requires forall j :: !ArrowAt(line, j)
    ensures LoadFrom(g, 3, [line] + rest) == (g, false)
  {
    assert ([line] + rest)[0] == line;
    var arrow := FindArrow(line);
    assert arrow == |line|;
  }

  /** A production whose left-hand side, spaces removed, is no declared
      non-terminal stops the load. */
  lemma UndeclaredLhsFails(g: Grammar, lhs: string, rhs: string, rest: seq<string>)
    requires Loaded(g) && |lhs| > 0 && lhs[0] != '#' && '-' !in lhs
    requires StripSpaces(lhs) !in g.nonTerminals
    ensures LoadFrom(g, 3, [lhs + "->" + rhs] + rest) == (g, false)
  {
    var line := lhs + "->" + rhs;
    assert ([line] + rest)[0] == line;
    assert line[0] == lhs[0] && line != "$";
    ArrowAfter(lhs, rhs);
    assert line[..|lhs|] == lhs;
  }

  /** The arrow is found right after a prefix that holds no `-`. */
  lemma {:induction false} ArrowAfter(prefix: string, tail: string)
    requires '-' !in prefix
    ensures FindArrow(prefix + "->" + tail) == |prefix|
    decreases |prefix|
  {
    var line := prefix + "->" + tail;
    if |prefix| > 0 {
      assert prefix[0] in prefix;
      assert line[1..] == prefix[1..] + "->" + tail;
      assert forall c :: c in prefix[1..] ==> c in prefix;
      ArrowAfter(prefix[1..], tail);
    } else {
      assert line[0] == '-' && line[1] == '>';
    }
  }

  /** The left-hand side written `A ` reads back as `A`. */
  lemma StripTrailingSpace(lhs: string)
    requires NoSpace(lhs)
    ensures StripSpaces(lhs + " ") == lhs
  {
    StripAppend(lhs, " ");
    StripNoSpace(lhs);
    assert StripSpaces(" ") == "";
  }

  /** Leading whitespace before the first symbol is skipped. */
  lemma SplitLeadingSpace(x: string)
    ensures SplitProduction(" " + x) == SplitProduction(x)
  {
    assert (" " + x)[1..] == x;
    assert DropSpaces(" " + x) == DropSpaces(x);
  }

  /** A production line appends one alternative for its left-hand side,
      whatever whitespace surrounds the symbols. */
  lemma ProductionAppended(g: Grammar, lhs: string, rhs: seq<string>, rest: seq<string>)
    requires Loaded(g) && lhs in g.nonTerminals
    requires |lhs| > 0 && lhs[0] != '#' && NoSpace(lhs) && '-' !in lhs
    requires forall k :: 0 <= k < |rhs| ==> |rhs[k]| > 0 && NoSpace(rhs[k])
    ensures var line := lhs + " -> " + Join(rhs, ' ');
      LoadFrom(g, 3, [line] + rest) ==
        LoadFrom(g.(productions := AddProduction(g.productions, lhs, rhs)), 3, rest)
  {
    var text := Join(rhs, ' ');
    var line := lhs + " -> " + text;
    var prefix := lhs + " ";
    assert line == prefix + "->" + (" " + text);
    assert ([line] + rest)[0] == line && ([line] + rest)[1..] == rest;
    assert line[0] == lhs[0] && |line| >= 4;
    assert '-' !in prefix;
    ArrowAfter(prefix, " " + text);
    assert line[..|prefix|] == prefix;
    StripTrailingSpace(lhs);
    assert line[|prefix| + 2..] == " " + text;
    SplitLeadingSpace(text);
    SplitJoin(rhs);
  }

  // ---------------------------------------------------------------------
  // checkCFG

  /** Every symbol of every right-hand side is declared. */
  predicate SymbolsDeclared(g: Grammar, rhs: seq<string>)
  {
    forall j :: 0 <= j < |rhs| ==> IsTerminal(g, rhs[j]) || IsNonTerminal(g, rhs[j])
  }

  /** The four checks of `checkCFG`: the start symbol is a non-terminal;
      each left-hand side is one non-terminal; each right-hand symbol is a
      terminal or a non-terminal; each non-terminal has an alternative. */
  predicate IsCFG(g: Grammar)
  {
    && IsNonTerminal(g, g.startSymbol)
    && (forall k :: k in g.productions ==> IsNonTerminal(g, k))
    && (forall k, i :: k in g.productions && 0 <= i < |g.productions[k]| ==> SymbolsDeclared(g, g.productions[k][i]))
    && (forall n :: n in g.nonTerminals ==> n in g.productions && |g.productions[n]| > 0)
  }

  /** `checkCFG`, one check after the other as the source runs them. */
  method CheckCFG(g: Grammar) returns (ok: bool)
    ensures ok <==> IsCFG(g)
  {
    if g.startSymbol !in g.nonTerminals {
      return false;
    }
    var keys := g.productions.Keys;
    while keys != {}
      invariant keys <= g.productions.Keys
      invariant forall k :: k in g.productions && k !in keys ==> IsNonTerminal(g, k)
      decreases keys
    {
      var k :| k in keys;
      if k !in g.nonTerminals {
        return false;
      }
      keys := keys - {k};
    }
    keys := g.productions.Keys;
    while keys != {}
      invariant keys <= g.productions.Keys
      invariant forall k, i :: k in g.productions && k !in keys && 0 <= i < |g.productions[k]| ==>
        SymbolsDeclared(g, g.productions[k][i])
      decreases keys
    {
      var k :| k in keys;
      var alternatives := g.productions[k];
      var i := 0;
      while i < |alternatives|
        invariant 0 <= i <= |alternatives|
        invariant forall a :: 0 <= a < i ==> SymbolsDeclared(g, alternatives[a])
      {
        var rhs := alternatives[i];
        var j := 0;
        while j < |rhs|
          invariant 0 <= j <= |rhs|
          invariant forall b :: 0 <= b < j ==> IsTerminal(g, rhs[b]) || IsNonTerminal(g, rhs[b])
        {
          if !IsTerminal(g, rhs[j]) && !IsNonTerminal(g, rhs[j]) {
            return false;
          }
          j := j + 1;
        }
        i := i + 1;
      }
      keys := keys - {k};
    }
    var remaining := g.nonTerminals;
    while remaining != {}
      invariant remaining <= g.nonTerminals
      invariant forall n :: n in g.nonTerminals && n !in remaining ==> n in g.productions && |g.productions[n]| > 0
      decreases remaining
    {
      var n :| n in remaining;
      if n !in g.productions || |g.productions[n]| == 0 {
        return false;
      }
      remaining := remaining - {n};
    }
    return true;
  }

  /** After any load the second check cannot fail, so a loaded grammar is a
      CFG exactly when the other three hold. */
  lemma LoadedCheck(g: Grammar, lines: seq<string>)
    ensures var h := ReadFromFile(g, lines).0;
      IsCFG(h) <==>
        && IsNonTerminal(h, h.startSymbol)
        && (forall k, i :: k in h.productions && 0 <= i < |h.productions[k]| ==> SymbolsDeclared(h, h.productions[k][i]))
        && (forall n :: n in h.nonTerminals ==> n in h.productions && |h.productions[n]| > 0)
  {
  }

  /** A non-terminal without productions makes the grammar fail the check. */
  lemma UnusedNonTerminalFails(g: Grammar, n: string)
    requires n in g.nonTerminals && n !in g.productions
    ensures !IsCFG(g)
  {
  }

  /** The lines that declare something: neither blank nor comments. */
  function Declared(lines: seq<string>): set<string>
  {
    set k | 0 <= k < |lines| && |lines[k]| > 0 && lines[k][0] != '#' :: lines[k]
  }

  /** `names` added to the non-terminals (section 0) or the terminals
      (section 1). */
  function Declare(g: Grammar, section: nat, names: set<string>): Grammar
    requires section <= 1
  {
    if section == 0 then g.(nonTerminals := g.nonTerminals + names)
    else g.(terminals := g.terminals + names)
  }

  /** Declared lines of a section split off its first line. */
  lemma DeclaredCons(lines: seq<string>)
    requires |lines| > 0
    ensures Declared(lines) ==
      (if |lines[0]| == 0 || lines[0][0] == '#' then {} else {lines[0]}) + Declared(lines[1..])
  {
    var line, tail := lines[0], lines[1..];
    forall x | x in Declared(lines)
      ensures x in (if |line| == 0 || line[0] == '#' then {} else {line}) + Declared(tail)
    {
      var k :| 0 <= k < |lines| && |lines[k]| > 0 && lines[k][0] != '#' && lines[k] == x;
      if k > 0 {
        assert tail[k - 1] == x;
      }
    }
    forall x | x in Declared(tail)
      ensures x in Declared(lines)
    {
      var k :| 0 <= k < |tail| && |tail[k]| > 0 && tail[k][0] != '#' && tail[k] == x;
      assert lines[k + 1] == x;
    }
  }

  /** Lines of the non-terminal or terminal section up to a `$` declare
      exactly their non-comment lines, in that section's set only; the
      `$` itself is not declared and moves on to the next section. */
  lemma {:induction false} DeclarationSection(g: Grammar, section: nat, lines: seq<string>, rest: seq<string>)
    requires Loaded(g) && section <= 1
    requires forall k :: 0 <= k < |lines| ==> lines[k] != "$"
    ensures LoadFrom(g, section, lines) == (Declare(g, section, Declared(lines)), true)
    ensures LoadFrom(g, section, lines + ["$"] + rest) == LoadFrom(Declare(g, section, Declared(lines)), section + 1, rest)
    decreases |lines|
  {
    var full := lines + ["$"] + rest;
    if |lines| == 0 {
      assert Declared(lines) == {};
      assert Declare(g, section, {}) == g;
      assert full[0] == "$" && full[1..] == rest;
      LoadStep(g, section, full);
    } else {
      var line := lines[0];
      var tail := lines[1..];
      assert forall k :: 0 <= k < |tail| ==> tail[k] == lines[k + 1];
      var next := NextGrammar(g, section, line);
      assert line != "$" && NextSection(section, line) == section;
      assert next == if |line| == 0 || line[0] == '#' then g else Declare(g, section, {line});
      LoadStep(g, section, lines);
      assert full[0] == line && full[1..] == tail + ["$"] + rest;
      LoadStep(g, section, full);
      DeclarationSection(next, section, tail, rest);
      DeclaredCons(lines);
      assert Declare(next, section, Declared(tail)) == Declare(g, section, Declared(lines));
    }
  }

  /** The number of `$` lines. */
  function Markers(lines: seq<string>): nat
  {
    if |lines| == 0 then 0 else (if lines[0] == "$" then 1 else 0) + Markers(lines[1..])
  }

  /** A content line that the given section rejects against the
      non-terminals of `h`: an undeclared start symbol, or a production
      with no arrow or an undeclared left-hand side. */
  predicate FailsAt(h: Grammar, section: nat, line: string)
  {
    && |line| > 0 && line[0] != '#' && line != "$"
    && (|| (section == 2 && line !in h.nonTerminals)
        || (section == 3 && (FindArrow(line) == |line| || StripSpaces(line[..FindArrow(line)]) !in h.nonTerminals)))
  }

  /** The section a line leaves the reader in. */
  function NextSection(section: nat, line: string): nat
  {
    if |line| > 0 && line[0] != '#' && line == "$" then section + 1 else section
  }

  /** The grammar after one line that its section does not reject. */
  function NextGrammar(g: Grammar, section: nat, line: string): Grammar
  {
    if |line| == 0 || line[0] == '#' || line == "$" || section > 3 then g
    else if section <= 1 then Declare(g, section, {line})
    else if section == 2 then g.(startSymbol := line)
    else if FindArrow(line) == |line| then g
    else g.(productions := AddProduction(g.productions, StripSpaces(line[..FindArrow(line)]),
                                         SplitProduction(line[FindArrow(line) + 2..])))
  }

  /** A line its section does not reject is read, and the load goes on. */
  lemma LoadStep(g: Grammar, section: nat, lines: seq<string>)
    requires Loaded(g) && |lines| > 0 && !FailsAt(g, section, lines[0])
    ensures Loaded(NextGrammar(g, section, lines[0]))
    ensures LoadFrom(g, section, lines)
         == LoadFrom(NextGrammar(g, section, lines[0]), NextSection(section, lines[0]), lines[1..])
  {
    var line := lines[0];
    if |line| > 0 && line[0] != '#' && line != "$" && section == 3 {
      // Loaded() of the extended grammar is what LoadFrom ensures of it.
      assert LoadFrom(g, section, [line]).0 == NextGrammar(g, section, line);
    }
  }

  /** A load returns `false` only because of a line that its section
      rejects, judged against what had been read before it; the grammar
      returned is the one at that point. */
  lemma {:induction false} LoadFailureCause(g: Grammar, section: nat, lines: seq<string>)
    requires Loaded(g)
    ensures var r := LoadFrom(g, section, lines);
      !r.1 ==> exists k :: 0 <= k < |lines| && FailsAt(r.0, section + Markers(lines[..k]), lines[k])
    decreases |lines|
  {
    var r := LoadFrom(g, section, lines);
    if |lines| > 0 && !r.1 {
      assert lines[..0] == [];
      if FailsAt(g, section, lines[0]) {
        assert LoadFrom(g, section, lines).0 == g;
        assert FailsAt(r.0, section + Markers(lines[..0]), lines[0]);
      } else {
        var line := lines[0];
        var next, nextSection := NextGrammar(g, section, line), NextSection(section, line);
        LoadStep(g, section, lines);
        LoadFailureCause(next, nextSection, lines[1..]);
        var k :| 0 <= k < |lines[1..]| && FailsAt(r.0, nextSection + Markers(lines[1..][..k]), lines[1..][k]);
        assert lines[..k + 1][1..] == lines[1..][..k];
        assert lines[..k + 1][0] == line;
        assert Markers(lines[..k + 1]) == (if line == "$" then 1 else 0) + Markers(lines[1..][..k]);
        assert lines[k + 1] == lines[1..][k];
      }
    }
  }

  /** A fresh grammar read from a file without any `$` keeps the start
      symbol `""`, which no line can declare, so it is never a CFG. */
  lemma FreshWithoutStartFails(lines: seq<string>)
    requires forall k :: 0 <= k < |lines| ==> lines[k] != "$"
    ensures ReadFromFile(Empty, lines).1
    ensures ReadFromFile(Empty, lines).0.startSymbol == ""
    ensures !IsCFG(ReadFromFile(Empty, lines).0)
  {
    DeclarationSection(Empty, 0, lines, []);
    assert "" !in Declared(lines);
  }
}
