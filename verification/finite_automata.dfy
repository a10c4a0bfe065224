/** The table-driven finite automaton: loading its tables from `label:value`
    rule lines, expanding character ranges, and deciding acceptance of a
    string by a deterministic run. */
module FiniteAutomata {
  import opened Wrappers
  import opened StringUtils

  /** One alphabet class: every character it contains, and its alias. */
  datatype AlphabetEntry = AlphabetEntry(chars: string, alias: string)

  /** The automaton's tables. The alphabet is kept in declaration order and
      holds each expanded character string at most once. Transitions are
      keyed by (source state, class alias). */
  datatype FA = FA(
    states: set<string>,
    alphabet: seq<AlphabetEntry>,
    initial: string,
    finals: set<string>,
    transitions: map<(string, string), string>)

  /** A malformed alphabet atom; loading stops with it. */
  datatype FormatError = FormatError(message: string)

  /** The default-constructed automaton every load starts from. */
  const EmptyFA := FA({}, [], "", {}, map[])

  function ToSet(s: seq<string>): set<string>
  {
    set x | x in s
  }

  // ---------------------------------------------------------------------
  // Range expansion

  /** The expansion loop `while (curr != b) { out += curr; curr++; } out += b`
      over one-byte characters: `curr++` wraps from 255 to 0, so a reversed
      range runs up to the top of the byte range and on from 0 to `b`. */
  function ByteRange(a: int, b: int): (r: string)
    requires 0 <= a < 256 && 0 <= b < 256
    ensures |r| == (b - a) % 256 + 1
    ensures forall k :: 0 <= k < |r| ==> r[k] as int == (a + k) % 256
    decreases (b - a) % 256
  {
    if a == b then [b as char]
    else
      var next := (a + 1) % 256;
      WrapStep(a, b);
      var tail := ByteRange(next, b);
      ByteRangeCons(a, tail, [a as char] + tail);
      [a as char] + tail
  }

  /** Putting `a` in front of the run that starts at `a + 1` (mod 256)
      gives the run that starts at `a`. */
  lemma ByteRangeCons(a: int, tail: string, r: string)
    requires 0 <= a < 256 && r == [a as char] + tail
    requires forall k :: 0 <= k < |tail| ==> tail[k] as int == ((a + 1) % 256 + k) % 256
    ensures forall k :: 0 <= k < |r| ==> r[k] as int == (a + k) % 256
  {
    forall k | 0 <= k < |r|
      ensures r[k] as int == (a + k) % 256
    {
      if k > 0 {
        assert r[k] == tail[k - 1];
        if a == 255 {
          assert (a + 1) % 256 == 0;
          assert (k - 1) % 256 == (a + k) % 256;
        } else {
          assert (a + 1) % 256 == a + 1;
        }
      }
    }
  }

  /** One `curr++` on a byte: the distance to `b` shrinks by one and the
      offsets shift by one. */
  lemma WrapStep(a: int, b: int)
    requires 0 <= a < 256 && 0 <= b < 256 && a != b
    ensures (b - (a + 1) % 256) % 256 == (b - a) % 256 - 1
  {
    if a == 255 {
      assert (a + 1) % 256 == 0;
      assert (b - a) % 256 == b + 1;
    } else {
      assert (a + 1) % 256 == a + 1;
      if b > a {
        assert (b - a) % 256 == b - a;
        assert (b - a - 1) % 256 == b - a - 1;
      } else {
        assert (b - a) % 256 == b - a + 256;
        assert (b - a - 1) % 256 == b - a - 1 + 256;
      }
    }
  }

  /** `parts[k][0]`: the first byte of a part, or the terminating NUL that
      an empty `std::string` exposes at index 0. */
  function FirstByte(part: string): (b: int)
    requires IsByteText(part)
    ensures 0 <= b < 256
  {
    if |part| == 0 then 0 else assert part[0] in part; part[0] as int
  }

  /** An alphabet atom: a single `a.b` range is expanded, an atom with no
      separating dot is returned as it is, anything else is a format error. */
  function Expand(atom: string): (r: Result<string, FormatError>)
    requires IsByteText(atom)
    ensures |atom| > 0 && '.' !in atom ==> r == Ok(atom)
    ensures r.Ok? ==> |r.value| > 0
    ensures r.Err? ==> r.error.message in {"incorrent FA.in format", "incorrect FA.in format"}
  {
    NoDelimiterIndex(atom, '.');
    var parts := Tokenize(atom, '.');
    if |parts| == 2 then
      if |parts[0]| > 1 || |parts[1]| > 1 then Err(FormatError("incorrent FA.in format"))
      else Ok(ByteRange(FirstByte(parts[0]), FirstByte(parts[1])))
    else if |parts| == 1 then Ok(atom)
    else Err(FormatError("incorrect FA.in format"))
  }

  /** `a.b` with `a <= b` gives the consecutive characters `a..b`. */
  lemma ExpandRange(a: char, b: char)
    requires a != '.' && b != '.' && a <= b && b as int < 256
    ensures var r := Expand([a, '.', b]);
      && r.Ok?
      && |r.value| == b as int - a as int + 1
      && (forall k :: 0 <= k < |r.value| ==> r.value[k] as int == a as int + k)
  {
    var atom := [a, '.', b];
    assert IsByteText(atom);
    TokenizeJoin([[a], [b]], '.');
    assert Join([[a], [b]], '.') == atom;
  }

  /** The degenerate range `a.a` is the single character `a`. */
  lemma ExpandDegenerate(a: char)
    requires a != '.' && a as int < 256
    ensures Expand([a, '.', a]) == Ok([a])
  {
    ExpandRange(a, a);
  }

  /** A range whose ends are not both single characters is rejected. */
  lemma ExpandLongPart(p: string, q: string)
    requires IsByteText(p + "." + q)
    requires '.' !in p && '.' !in q && |q| > 0
    requires |p| > 1 || |q| > 1
    ensures Expand(p + "." + q).Err?
  {
    TokenizeJoin([p, q], '.');
    assert Join([p, q], '.') == p + "." + q;
  }

  /** Three or more dot-separated parts, or the empty atom, are rejected. */
  lemma ExpandTooManyParts(atom: string)
    requires IsByteText(atom)
    requires |atom| == 0 || Count(atom, '.') >= 3 || (Count(atom, '.') == 2 && Last(atom) != '.')
    ensures Expand(atom).Err?
  {
    TokenizeCount(atom, '.');
  }

  // ---------------------------------------------------------------------
  // Loading

  /** The label and value of a rule line: its first two `:` pieces; the
      line is skipped (None) when it has fewer than two. */
  function LabelValue(line: string): Option<(string, string)>
  {
    var tokens := Tokenize(line, ':');
    if |tokens| < 2 then None else Some((tokens[0], tokens[1]))
  }

  /** The alias bound to exactly this expanded string, if any. */
  function FindClass(alphabet: seq<AlphabetEntry>, chars: string): (r: Option<string>)
    ensures r.None? <==> forall i :: 0 <= i < |alphabet| ==> alphabet[i].chars != chars
    ensures r.Some? ==> exists i :: 0 <= i < |alphabet| && alphabet[i] == AlphabetEntry(chars, r.value)
  {
    if |alphabet| == 0 then None
    else if alphabet[0].chars == chars then Some(alphabet[0].alias)
    else
      var r := FindClass(alphabet[1..], chars);
      assert forall i :: 0 <= i < |alphabet| - 1 ==> alphabet[1..][i] == alphabet[i + 1];
      r
  }

  /** No expanded string is bound twice. */
  predicate UniqueClasses(alphabet: seq<AlphabetEntry>)
  {
    forall i, j :: 0 <= i < j < |alphabet| ==> alphabet[i].chars != alphabet[j].chars
  }

  /** `alphabetMap.insert`: binds `chars` to `alias` unless `chars` is
      already bound, in which case the first alias is kept. */
  function InsertClass(alphabet: seq<AlphabetEntry>, chars: string, alias: string): (r: seq<AlphabetEntry>)
    requires UniqueClasses(alphabet)
    ensures UniqueClasses(r)
    ensures FindClass(r, chars) == (if FindClass(alphabet, chars).Some? then FindClass(alphabet, chars) else Some(alias))
    ensures forall x :: x != chars ==> FindClass(r, x) == FindClass(alphabet, x)
  {
    if FindClass(alphabet, chars).Some? then alphabet
    else
      var r := alphabet + [AlphabetEntry(chars, alias)];
      FindClassAppend(alphabet, AlphabetEntry(chars, alias));
      r
  }

  lemma {:induction false} FindClassAppend(alphabet: seq<AlphabetEntry>, e: AlphabetEntry)
    ensures forall x :: (FindClass(alphabet + [e], x)
      == if FindClass(alphabet, x).Some? then FindClass(alphabet, x) else if x == e.chars then Some(e.alias) else None)
    decreases |alphabet|
  {
    if |alphabet| > 0 {
      assert (alphabet + [e])[1..] == alphabet[1..] + [e];
      FindClassAppend(alphabet[1..], e);
    }
  }

  /** Some atom expands to exactly `chars`. */
  ghost predicate ExpandsTo(atoms: seq<string>, chars: string)
    requires forall k :: 0 <= k < |atoms| ==> IsByteText(atoms[k])
  {
    exists k :: 0 <= k < |atoms| && Expand(atoms[k]) == Ok(chars)
  }

  /** Some atom is malformed. */
  predicate SomeAtomFails(atoms: seq<string>)
    requires forall k :: 0 <= k < |atoms| ==> IsByteText(atoms[k])
  {
    exists k :: 0 <= k < |atoms| && Expand(atoms[k]).Err?
  }

  /** What an entry binding `atoms` to `alias` leaves `chars` bound to:
      an earlier alias is kept, otherwise the entry's alias applies when
      some atom expands to `chars`. */
  ghost function BoundAfter(alphabet: seq<AlphabetEntry>, atoms: seq<string>, alias: string, chars: string): Option<string>
    requires forall k :: 0 <= k < |atoms| ==> IsByteText(atoms[k])
  {
    if FindClass(alphabet, chars).Some? then FindClass(alphabet, chars)
    else if ExpandsTo(atoms, chars) then Some(alias)
    else None
  }

  /** Every `|`-separated atom of one alphabet entry, expanded and bound
      to the alias, in order. A string bound before keeps its alias; one
      first produced here gets this entry's alias; nothing else is bound. */
  function AddAtoms(alphabet: seq<AlphabetEntry>, atoms: seq<string>, alias: string)
    : (r: Result<seq<AlphabetEntry>, FormatError>)
    requires UniqueClasses(alphabet)
    requires forall k :: 0 <= k < |atoms| ==> IsByteText(atoms[k])
    ensures r.Ok? ==> UniqueClasses(r.value)
    ensures r.Ok? ==> forall x :: FindClass(r.value, x) == BoundAfter(alphabet, atoms, alias, x)
    ensures r.Err? <==> SomeAtomFails(atoms)
    decreases |atoms|
  {
    if |atoms| == 0 then Ok(alphabet)
    else
      match Expand(atoms[0])
      case Err(e) => Err(e)
      case Ok(chars) =>
        var next := InsertClass(alphabet, chars, alias);
        var r := AddAtoms(next, atoms[1..], alias);
        assert forall k :: 1 <= k < |atoms| ==> atoms[1..][k - 1] == atoms[k];
        BoundAfterCons(alphabet, atoms, alias, chars);
        r
  }

  /** Binding the first atom and then the rest binds what binding all
      atoms at once does. */
  lemma BoundAfterCons(alphabet: seq<AlphabetEntry>, atoms: seq<string>, alias: string, chars: string)
    requires UniqueClasses(alphabet)
    requires forall k :: 0 <= k < |atoms| ==> IsByteText(atoms[k])
    requires |atoms| > 0 && Expand(atoms[0]) == Ok(chars)
    ensures forall x :: BoundAfter(InsertClass(alphabet, chars, alias), atoms[1..], alias, x) == BoundAfter(alphabet, atoms, alias, x)
  {
    var next := InsertClass(alphabet, chars, alias);
    forall x
      ensures BoundAfter(next, atoms[1..], alias, x) == BoundAfter(alphabet, atoms, alias, x)
    {
      if x != chars && ExpandsTo(atoms, x) {
        var k :| 0 <= k < |atoms| && Expand(atoms[k]) == Ok(x);
        assert k > 0 && atoms[1..][k - 1] == atoms[k];
      }
      if ExpandsTo(atoms[1..], x) {
        var k :| 0 <= k < |atoms[1..]| && Expand(atoms[1..][k]) == Ok(x);
        assert atoms[k + 1] == atoms[1..][k];
      }
    }
  }

  /** The atoms of a class specification: `[` and `]` removed, then split
      on `|`. */
  function ClassAtoms(classSpec: string): (atoms: seq<string>)
    ensures forall k :: 0 <= k < |atoms| ==> '[' !in atoms[k] && ']' !in atoms[k] && '|' !in atoms[k]
    ensures IsByteText(classSpec) ==> forall k :: 0 <= k < |atoms| ==> IsByteText(atoms[k])
  {
    var unbracketed := RemoveFromString(RemoveFromString(classSpec, '['), ']');
    Tokenize(unbracketed, '|')
  }

  /** One `[classSpec]=alias` entry: its atoms are bound to the alias as
      `AddAtoms` describes; an entry with no `=` is skipped. */
  function AddAlphabetEntry(alphabet: seq<AlphabetEntry>, entry: string): (r: Result<seq<AlphabetEntry>, FormatError>)
    requires UniqueClasses(alphabet) && IsByteText(entry)
    ensures r.Ok? ==> UniqueClasses(r.value)
    ensures r.Ok? ==> forall x :: FindClass(alphabet, x).Some? ==> FindClass(r.value, x) == FindClass(alphabet, x)
    ensures |Tokenize(entry, '=')| < 2 ==> r == Ok(alphabet)
    ensures |Tokenize(entry, '=')| >= 2 ==>
      var aux := Tokenize(entry, '=');
      var atoms := ClassAtoms(aux[0]);
      && (r.Err? <==> SomeAtomFails(atoms))
      && (r.Ok? ==> forall x :: FindClass(r.value, x) == BoundAfter(alphabet, atoms, aux[1], x))
  {
    var aux := Tokenize(entry, '=');
    if |aux| < 2 then Ok(alphabet)
    else
      var atoms := ClassAtoms(aux[0]);
      AddAtoms(alphabet, atoms, aux[1])
  }

  /** The entry has an `=` and some atom of its class is malformed. */
  predicate EntryFails(entry: string)
    requires IsByteText(entry)
  {
    var aux := Tokenize(entry, '=');
    |aux| >= 2 && SomeAtomFails(ClassAtoms(aux[0]))
  }

  /** Some entry is malformed. */
  predicate SomeEntryFails(entries: seq<string>)
    requires forall k :: 0 <= k < |entries| ==> IsByteText(entries[k])
  {
    exists k :: 0 <= k < |entries| && EntryFails(entries[k])
  }

  /** The alias of the first entry with an `=` one of whose atoms expands
      to `chars`. */
  ghost function FirstEntryAlias(entries: seq<string>, chars: string): Option<string>
    requires forall k :: 0 <= k < |entries| ==> IsByteText(entries[k])
    decreases |entries|
  {
    if |entries| == 0 then None
    else
      var aux := Tokenize(entries[0], '=');
      if |aux| >= 2 && ExpandsTo(ClassAtoms(aux[0]), chars) then Some(aux[1])
      else FirstEntryAlias(entries[1..], chars)
  }

  /** The entry has an `=` and one of its atoms expands to `chars`. */
  ghost predicate EntryProduces(entry: string, chars: string)
    requires IsByteText(entry)
  {
    var aux := Tokenize(entry, '=');
    |aux| >= 2 && ExpandsTo(ClassAtoms(aux[0]), chars)
  }

  /** Entry `k` is the first that produces `chars`. */
  ghost predicate FirstProducer(entries: seq<string>, chars: string, k: int)
    requires forall k :: 0 <= k < |entries| ==> IsByteText(entries[k])
  {
    && 0 <= k < |entries|
    && EntryProduces(entries[k], chars)
    && forall j :: 0 <= j < k ==> !EntryProduces(entries[j], chars)
  }

  /** `chars` gets an alias from the entries exactly when some entry
      produces it, and then from the first such entry. */
  lemma {:induction false} FirstEntryAliasSome(entries: seq<string>, chars: string)
    requires forall k :: 0 <= k < |entries| ==> IsByteText(entries[k])
    ensures FirstEntryAlias(entries, chars).Some? <==> exists k :: 0 <= k < |entries| && EntryProduces(entries[k], chars)
    ensures FirstEntryAlias(entries, chars).Some? ==>
      exists k :: FirstProducer(entries, chars, k) && FirstEntryAlias(entries, chars) == Some(Tokenize(entries[k], '=')[1])
    decreases |entries|
  {
    if |entries| > 0 {
      var tail := entries[1..];
      assert forall k :: 1 <= k < |entries| ==> tail[k - 1] == entries[k];
      FirstEntryAliasSome(tail, chars);
      if !EntryProduces(entries[0], chars) && FirstEntryAlias(tail, chars).Some? {
        var k :| FirstProducer(tail, chars, k) && FirstEntryAlias(tail, chars) == Some(Tokenize(tail[k], '=')[1]);
        assert FirstProducer(entries, chars, k + 1);
      }
    }
  }

  /** What a run of entries leaves `chars` bound to: an earlier alias is
      kept, otherwise the first entry that produces `chars` decides. */
  ghost function EntriesBound(alphabet: seq<AlphabetEntry>, entries: seq<string>, chars: string): Option<string>
    requires forall k :: 0 <= k < |entries| ==> IsByteText(entries[k])
  {
    if FindClass(alphabet, chars).Some? then FindClass(alphabet, chars) else FirstEntryAlias(entries, chars)
  }

  /** The comma-separated entries of one `alphabet` line, in order. The
      run fails exactly when some entry is malformed; otherwise every
      expanded string is bound as `EntriesBound` says. */
  function AddAlphabetEntries(alphabet: seq<AlphabetEntry>, entries: seq<string>): (r: Result<seq<AlphabetEntry>, FormatError>)
    requires UniqueClasses(alphabet)
    requires forall k :: 0 <= k < |entries| ==> IsByteText(entries[k])
    ensures r.Ok? ==> UniqueClasses(r.value)
    ensures r.Ok? ==> forall x :: FindClass(alphabet, x).Some? ==> FindClass(r.value, x) == FindClass(alphabet, x)
    ensures r.Err? <==> SomeEntryFails(entries)
    ensures r.Ok? ==> forall x :: FindClass(r.value, x) == EntriesBound(alphabet, entries, x)
    decreases |entries|
  {
    if |entries| == 0 then Ok(alphabet)
    else
      assert forall k :: 1 <= k < |entries| ==> entries[1..][k - 1] == entries[k];
      match AddAlphabetEntry(alphabet, entries[0])
      case Err(e) => Err(e)
      case Ok(next) =>
        var r := AddAlphabetEntries(next, entries[1..]);
        EntriesBoundCons(alphabet, next, entries);
        r
  }

  /** Binding the first entry and then the rest binds what binding all
      entries at once does. */
  lemma EntriesBoundCons(alphabet: seq<AlphabetEntry>, next: seq<AlphabetEntry>, entries: seq<string>)
    requires UniqueClasses(alphabet)
    requires forall k :: 0 <= k < |entries| ==> IsByteText(entries[k])
    requires |entries| > 0 && AddAlphabetEntry(alphabet, entries[0]) == Ok(next)
    ensures forall x :: EntriesBound(next, entries[1..], x) == EntriesBound(alphabet, entries, x)
  {
    forall x
      ensures EntriesBound(next, entries[1..], x) == EntriesBound(alphabet, entries, x)
    {
      var aux := Tokenize(entries[0], '=');
      if |aux| >= 2 {
        assert FindClass(next, x) == BoundAfter(alphabet, ClassAtoms(aux[0]), aux[1], x);
      }
    }
  }

  /** The symbols of a transition entry: split on `.`, with `[` stripped
      from the first and `]` from the last. An empty symbol list (the
      entry `from|to==x`) registers nothing. */
  function TransitionSymbols(inputs: string): (symbols: seq<string>)
    ensures var split := Tokenize(inputs, '.');
      && |symbols| == |split|
      && (|symbols| > 0 ==> '[' !in symbols[0] && ']' !in symbols[|symbols| - 1])
      && (forall k :: 0 < k < |symbols| - 1 ==> symbols[k] == split[k])
      && (|symbols| == 1 ==> symbols[0] == RemoveFromString(RemoveFromString(split[0], '['), ']'))
      && (|symbols| > 1 ==> symbols[0] == RemoveFromString(split[0], '['))
      && (|symbols| > 1 ==> symbols[|symbols| - 1] == RemoveFromString(split[|symbols| - 1], ']'))
    ensures forall k :: 0 <= k < |symbols| ==> '.' !in symbols[k]
  {
    var split := Tokenize(inputs, '.');
    if |split| == 0 then []
    else
      var stripped := split[0 := RemoveFromString(split[0], '[')];
      stripped[|stripped| - 1 := RemoveFromString(stripped[|stripped| - 1], ']')]
  }

  /** `transitions[from][symbol] = to` for every symbol. */
  function SetTargets(transitions: map<(string, string), string>, from: string, symbols: seq<string>, to: string)
    : (r: map<(string, string), string>)
    ensures forall k :: 0 <= k < |symbols| ==> (from, symbols[k]) in r && r[(from, symbols[k])] == to
    ensures forall key :: key !in ToPairs(from, symbols) ==> (key in r <==> key in transitions)
    ensures forall key :: key in transitions && key !in ToPairs(from, symbols) ==> r[key] == transitions[key]
    decreases |symbols|
  {
    if |symbols| == 0 then transitions
    else
      var r := SetTargets(transitions[(from, symbols[0]) := to], from, symbols[1..], to);
      assert forall k :: 1 <= k < |symbols| ==> symbols[1..][k - 1] == symbols[k];
      r
  }

  function ToPairs(from: string, symbols: seq<string>): set<(string, string)>
  {
    set k | 0 <= k < |symbols| :: (from, symbols[k])
  }

  /** One `from|to=sym1.sym2...` entry: every listed symbol leads from
      `from` to `to`, and nothing else changes; entries with no `=` or no
      `|` are skipped. */
  function AddTransition(transitions: map<(string, string), string>, entry: string): (r: map<(string, string), string>)
    ensures |Tokenize(entry, '=')| < 2 ==> r == transitions
    ensures |Tokenize(entry, '=')| >= 2 && |Tokenize(Tokenize(entry, '=')[0], '|')| < 2 ==> r == transitions
    ensures |Tokenize(entry, '=')| >= 2 && |Tokenize(Tokenize(entry, '=')[0], '|')| >= 2 ==>
      var parts := Tokenize(entry, '=');
      var ends := Tokenize(parts[0], '|');
      var symbols := TransitionSymbols(parts[1]);
      && (forall k :: 0 <= k < |symbols| ==> (ends[0], symbols[k]) in r && r[(ends[0], symbols[k])] == ends[1])
      && (forall key :: key !in ToPairs(ends[0], symbols) ==> (key in r <==> key in transitions))
      && (forall key :: key in transitions && key !in ToPairs(ends[0], symbols) ==> r[key] == transitions[key])
  {
    var parts := Tokenize(entry, '=');
    if |parts| < 2 then transitions
    else
      var ends := Tokenize(parts[0], '|');
      if |ends| < 2 then transitions
      else SetTargets(transitions, ends[0], TransitionSymbols(parts[1]), ends[1])
  }

  /** The comma-separated entries of a `transitions` line, in order; a later
      entry overwrites an earlier one for the same (state, symbol). */
  function AddTransitions(transitions: map<(string, string), string>, entries: seq<string>): map<(string, string), string>
    decreases |entries|
  {
    if |entries| == 0 then transitions
    else AddTransitions(AddTransition(transitions, entries[0]), entries[1..])
  }

  /** The entries are applied one after another, the last one last. */
  lemma {:induction false} AddTransitionsSnoc(transitions: map<(string, string), string>, entries: seq<string>, e: string)
    ensures AddTransitions(transitions, entries + [e]) == AddTransition(AddTransitions(transitions, entries), e)
    decreases |entries|
  {
    if |entries| > 0 {
      assert (entries + [e])[1..] == entries[1..] + [e];
      AddTransitionsSnoc(AddTransition(transitions, entries[0]), entries[1..], e);
    }
  }

  /** The states a rule line declares: those of a `states` line. */
  function DeclaredStates(line: string): set<string>
  {
    match LabelValue(line)
    case Some(lv) => if lv.0 == "states" then ToSet(Tokenize(lv.1, ',')) else {}
    case None => {}
  }

  /** The final states a rule line declares: those of a `final` line. */
  function DeclaredFinals(line: string): set<string>
  {
    match LabelValue(line)
    case Some(lv) => if lv.0 == "final" then ToSet(Tokenize(lv.1, ',')) else {}
    case None => {}
  }

  /** The initial state an `initial` line names. */
  function DeclaredInitial(line: string): Option<string>
  {
    match LabelValue(line)
    case Some(lv) => if lv.0 == "initial" then Some(lv.1) else None
    case None => None
  }

  /** The transition entries a rule line lists: those of a `transitions` line. */
  function DeclaredTransitions(line: string): seq<string>
  {
    match LabelValue(line)
    case Some(lv) => if lv.0 == "transitions" then Tokenize(lv.1, ',') else []
    case None => []
  }

  /** The alphabet entries a rule line lists: those of an `alphabet` line. */
  function DeclaredEntries(line: string): (entries: seq<string>)
    requires IsByteText(line)
    ensures forall k :: 0 <= k < |entries| ==> IsByteText(entries[k])
  {
    match LabelValue(line)
    case Some(lv) => if lv.0 == "alphabet" then Tokenize(lv.1, ',') else []
    case None => []
  }

  /** The line has at least two `:` pieces and the first is `name`. */
  predicate HasLabel(line: string, name: string)
  {
    LabelValue(line).Some? && LabelValue(line).value.0 == name
  }

  /** One rule line. `states` and `final` lines add states, an `initial`
      line replaces the initial state, an `alphabet` line binds classes and
      a `transitions` line adds moves; each leaves the other tables alone,
      and a line with any other label or no `:` changes nothing. Only an
      `alphabet` line can fail. */
  function LoadLine(fa: FA, line: string): (r: Result<FA, FormatError>)
    requires UniqueClasses(fa.alphabet) && IsByteText(line)
    ensures r.Ok? ==> UniqueClasses(r.value.alphabet)
    ensures r.Ok? ==> r.value.states == fa.states + DeclaredStates(line)
    ensures r.Ok? ==> r.value.finals == fa.finals + DeclaredFinals(line)
    ensures r.Ok? ==> r.value.initial == (if DeclaredInitial(line).Some? then DeclaredInitial(line).value else fa.initial)
    ensures r.Ok? && !HasLabel(line, "alphabet") ==> r.value.alphabet == fa.alphabet
    ensures r.Ok? && HasLabel(line, "alphabet") ==>
      forall x :: FindClass(fa.alphabet, x).Some? ==> FindClass(r.value.alphabet, x) == FindClass(fa.alphabet, x)
    ensures r.Ok? ==> r.value.transitions == AddTransitions(fa.transitions, DeclaredTransitions(line))
    ensures r.Err? ==> HasLabel(line, "alphabet")
    ensures LabelValue(line).None? ==> r == Ok(fa)
    ensures r.Err? <==> SomeEntryFails(DeclaredEntries(line))
    ensures r.Ok? ==> forall x :: FindClass(r.value.alphabet, x) == EntriesBound(fa.alphabet, DeclaredEntries(line), x)
  {
    match LabelValue(line)
    case None => Ok(fa)
    case Some(lv) =>
      var name := lv.0;
      var value := lv.1;
      if name == "states" then Ok(fa.(states := fa.states + ToSet(Tokenize(value, ','))))
      else if name == "alphabet" then
        var alphabet :- AddAlphabetEntries(fa.alphabet, Tokenize(value, ','));
        Ok(fa.(alphabet := alphabet))
      else if name == "initial" then Ok(fa.(initial := value))
      else if name == "final" then Ok(fa.(finals := fa.finals + ToSet(Tokenize(value, ','))))
      else if name == "transitions" then Ok(fa.(transitions := AddTransitions(fa.transitions, Tokenize(value, ','))))
      else Ok(fa)
  }

  /** The rule lines in file order. */
  function LoadLines(fa: FA, lines: seq<string>): (r: Result<FA, FormatError>)
    requires UniqueClasses(fa.alphabet)
    requires forall k :: 0 <= k < |lines| ==> IsByteText(lines[k])
    ensures r.Ok? ==> UniqueClasses(r.value.alphabet)
    decreases |lines|
  {
    if |lines| == 0 then Ok(fa)
    else
      var next :- LoadLine(fa, lines[0]);
      LoadLines(next, lines[1..])
  }

  /** `FA(filepath)`: the automaton described by the lines of a rule file,
      starting from the empty one. Its states and final states are exactly
      those some line declares, and only an `alphabet` line can make the
      load fail. */
  function Load(lines: seq<string>): (r: Result<FA, FormatError>)
    requires forall k :: 0 <= k < |lines| ==> IsByteText(lines[k])
    ensures r.Ok? ==> UniqueClasses(r.value.alphabet)
    ensures r.Ok? ==> forall s :: s in r.value.states <==> exists k :: 0 <= k < |lines| && s in DeclaredStates(lines[k])
    ensures r.Ok? ==> forall s :: s in r.value.finals <==> exists k :: 0 <= k < |lines| && s in DeclaredFinals(lines[k])
    ensures r.Ok? ==> r.value.transitions == AddTransitions(map[], AllTransitions(lines))
    ensures r.Err? ==> exists k :: 0 <= k < |lines| && HasLabel(lines[k], "alphabet")
    ensures r.Err? <==> exists k :: 0 <= k < |lines| && SomeEntryFails(DeclaredEntries(lines[k]))
    ensures r.Ok? ==> forall x :: FindClass(r.value.alphabet, x) == FirstEntryAlias(AllEntries(lines), x)
  {
    LoadLinesAlphabet(EmptyFA, lines);
    LoadLinesStates(EmptyFA, lines);
    LoadLinesTransitions(EmptyFA, lines);
    LoadLinesError(EmptyFA, lines);
    LoadLines(EmptyFA, lines)
  }

  /** `states` and `final` lines are unioned: a state is loaded exactly
      when some line declares it. */
  lemma {:induction false} LoadLinesStates(fa: FA, lines: seq<string>)
    requires UniqueClasses(fa.alphabet)
    requires forall k :: 0 <= k < |lines| ==> IsByteText(lines[k])
    ensures var r := LoadLines(fa, lines);
      r.Ok? ==> forall s ::
        && (s in r.value.states <==> s in fa.states || exists k :: 0 <= k < |lines| && s in DeclaredStates(lines[k]))
        && (s in r.value.finals <==> s in fa.finals || exists k :: 0 <= k < |lines| && s in DeclaredFinals(lines[k]))
    decreases |lines|
  {
    if |lines| > 0 {
      var next := LoadLine(fa, lines[0]);
      var r := LoadLines(fa, lines);
      if next.Ok? && r.Ok? {
        var mid, tail := next.value, lines[1..];
        assert r == LoadLines(mid, tail);
        LoadLinesStates(mid, tail);
        assert mid.states == fa.states + DeclaredStates(lines[0]);
        assert mid.finals == fa.finals + DeclaredFinals(lines[0]);
        DeclaredShift(lines);
      }
    }
  }

  /** A line declares a state of `lines` exactly when the first line or
      one of the others does. */
  lemma DeclaredShift(lines: seq<string>)
    requires |lines| > 0
    ensures forall s :: (exists k :: 0 <= k < |lines| && s in DeclaredStates(lines[k])) <==> s in DeclaredStates(lines[0]) || exists k :: 0 <= k < |lines[1..]| && s in DeclaredStates(lines[1..][k])
    ensures forall s :: (exists k :: 0 <= k < |lines| && s in DeclaredFinals(lines[k])) <==> s in DeclaredFinals(lines[0]) || exists k :: 0 <= k < |lines[1..]| && s in DeclaredFinals(lines[1..][k])
  {
    assert forall k :: 1 <= k < |lines| ==> lines[1..][k - 1] == lines[k];
  }

  /** An `initial` line replaces the previous initial state: the loaded one
      is named by the last such line, or kept when there is none. */
  lemma {:induction false} LoadLinesInitial(fa: FA, lines: seq<string>)
    requires UniqueClasses(fa.alphabet)
    requires forall k :: 0 <= k < |lines| ==> IsByteText(lines[k])
    ensures var r := LoadLines(fa, lines);
      r.Ok? ==>
        || ((forall k :: 0 <= k < |lines| ==> DeclaredInitial(lines[k]).None?) && r.value.initial == fa.initial)
        || (exists k :: 0 <= k < |lines| && DeclaredInitial(lines[k]) == Some(r.value.initial)
              && forall j :: k < j < |lines| ==> DeclaredInitial(lines[j]).None?)
    decreases |lines|
  {
    if |lines| > 0 {
      var next := LoadLine(fa, lines[0]);
      if next.Ok? {
        var rest := lines[1..];
        LoadLinesInitial(next.value, rest);
        assert forall k :: 1 <= k < |lines| ==> rest[k - 1] == lines[k];
        var r := LoadLines(fa, lines);
        if r.Ok? {
          if forall k :: 0 <= k < |rest| ==> DeclaredInitial(rest[k]).None? {
            if DeclaredInitial(lines[0]).Some? {
              assert DeclaredInitial(lines[0]) == Some(r.value.initial);
            }
          } else {
            var k :| 0 <= k < |rest| && DeclaredInitial(rest[k]) == Some(r.value.initial)
              && forall j :: k < j < |rest| ==> DeclaredInitial(rest[j]).None?;
            assert DeclaredInitial(lines[k + 1]) == Some(r.value.initial);
          }
        }
      }
    }
  }

  /** The transition entries of all `transitions` lines, in file order. */
  function AllTransitions(lines: seq<string>): seq<string>
    decreases |lines|
  {
    if |lines| == 0 then [] else DeclaredTransitions(lines[0]) + AllTransitions(lines[1..])
  }

  /** Applying two lists of entries is applying their concatenation. */
  lemma {:induction false} AddTransitionsConcat(transitions: map<(string, string), string>, a: seq<string>, b: seq<string>)
    ensures AddTransitions(transitions, a + b) == AddTransitions(AddTransitions(transitions, a), b)
    decreases |a|
  {
    if |a| == 0 {
      assert a + b == b;
    } else {
      assert (a + b)[0] == a[0] && (a + b)[1..] == a[1..] + b;
      AddTransitionsConcat(AddTransition(transitions, a[0]), a[1..], b);
    }
  }

  /** The transition table is built from every `transitions` entry of the
      file, applied in file order, so the last entry for a (state, symbol)
      pair wins across lines too. */
  lemma {:induction false} LoadLinesTransitions(fa: FA, lines: seq<string>)
    requires UniqueClasses(fa.alphabet)
    requires forall k :: 0 <= k < |lines| ==> IsByteText(lines[k])
    ensures var r := LoadLines(fa, lines);
      r.Ok? ==> r.value.transitions == AddTransitions(fa.transitions, AllTransitions(lines))
    decreases |lines|
  {
    if |lines| > 0 {
      var next := LoadLine(fa, lines[0]);
      if next.Ok? {
        LoadLinesTransitions(next.value, lines[1..]);
        AddTransitionsConcat(fa.transitions, DeclaredTransitions(lines[0]), AllTransitions(lines[1..]));
      }
    } else {
      assert AddTransitions(fa.transitions, []) == fa.transitions;
    }
  }

  /** Loading fails only on a malformed range in some `alphabet` line. */
  lemma {:induction false} LoadLinesError(fa: FA, lines: seq<string>)
    requires UniqueClasses(fa.alphabet)
    requires forall k :: 0 <= k < |lines| ==> IsByteText(lines[k])
    ensures LoadLines(fa, lines).Err? ==> exists k :: 0 <= k < |lines| && HasLabel(lines[k], "alphabet")
    decreases |lines|
  {
    if |lines| > 0 {
      var next := LoadLine(fa, lines[0]);
      if next.Ok? {
        LoadLinesError(next.value, lines[1..]);
        assert forall k :: 1 <= k < |lines| ==> lines[1..][k - 1] == lines[k];
      }
    }
  }

  /** The alphabet entries of all `alphabet` lines, in file order. */
  function AllEntries(lines: seq<string>): (entries: seq<string>)
    requires forall k :: 0 <= k < |lines| ==> IsByteText(lines[k])
    ensures forall k :: 0 <= k < |entries| ==> IsByteText(entries[k])
    decreases |lines|
  {
    if |lines| == 0 then []
    else
      var head, tail := DeclaredEntries(lines[0]), AllEntries(lines[1..]);
      assert forall k :: |head| <= k < |head| + |tail| ==> (head + tail)[k] == tail[k - |head|];
      head + tail
  }

  /** The first entry of a concatenation that produces `chars`. */
  lemma {:induction false} FirstEntryAliasConcat(a: seq<string>, b: seq<string>, chars: string)
    requires forall k :: 0 <= k < |a| ==> IsByteText(a[k])
    requires forall k :: 0 <= k < |b| ==> IsByteText(b[k])
    ensures forall k :: 0 <= k < |a + b| ==> IsByteText((a + b)[k])
    ensures FirstEntryAlias(a + b, chars)
         == if FirstEntryAlias(a, chars).Some? then FirstEntryAlias(a, chars) else FirstEntryAlias(b, chars)
    decreases |a|
  {
    assert forall k :: 0 <= k < |a + b| ==> (a + b)[k] == if k < |a| then a[k] else b[k - |a|];
    if |a| == 0 {
      assert a + b == b;
    } else {
      assert (a + b)[0] == a[0] && (a + b)[1..] == a[1..] + b;
      FirstEntryAliasConcat(a[1..], b, chars);
    }
  }

  /** The alphabet after all lines: a load fails exactly when some
      `alphabet` line holds a malformed entry, and otherwise binds every
      expanded string to its earlier alias or to the alias of the first
      entry in the file that produces it. */
  lemma {:induction false} LoadLinesAlphabet(fa: FA, lines: seq<string>)
    requires UniqueClasses(fa.alphabet)
    requires forall k :: 0 <= k < |lines| ==> IsByteText(lines[k])
    ensures var r := LoadLines(fa, lines);
      && (r.Err? <==> exists k :: 0 <= k < |lines| && SomeEntryFails(DeclaredEntries(lines[k])))
      && (r.Ok? ==> forall x :: FindClass(r.value.alphabet, x) == EntriesBound(fa.alphabet, AllEntries(lines), x))
    decreases |lines|
  {
    if |lines| > 0 {
      assert forall k :: 1 <= k < |lines| ==> lines[1..][k - 1] == lines[k];
      var next := LoadLine(fa, lines[0]);
      if next.Ok? {
        var mid := next.value;
        LoadLinesAlphabet(mid, lines[1..]);
        var r := LoadLines(fa, lines);
        if r.Ok? {
          forall x
            ensures FindClass(r.value.alphabet, x) == EntriesBound(fa.alphabet, AllEntries(lines), x)
          {
            FirstEntryAliasConcat(DeclaredEntries(lines[0]), AllEntries(lines[1..]), x);
          }
        }
      }
    }
  }

  // ---------------------------------------------------------------------
  // Acceptance

  /** The alias of the first class, in alphabet order, containing `c`. */
  function ClassOf(alphabet: seq<AlphabetEntry>, c: char): (r: Option<string>)
  {
    if |alphabet| == 0 then None
    else if c in alphabet[0].chars then Some(alphabet[0].alias)
    else ClassOf(alphabet[1..], c)
  }

  /** The first matching class wins, and a later class is never consulted. */
  lemma {:induction false} ClassOfFirstMatch(alphabet: seq<AlphabetEntry>, c: char)
    ensures ClassOf(alphabet, c).None? <==> forall i :: 0 <= i < |alphabet| ==> c !in alphabet[i].chars
    ensures ClassOf(alphabet, c).Some? ==> exists i :: (0 <= i < |alphabet|
      && c in alphabet[i].chars && alphabet[i].alias == ClassOf(alphabet, c).value
      && forall j :: 0 <= j < i ==> c !in alphabet[j].chars)
    decreases |alphabet|
  {
    if |alphabet| > 0 && c !in alphabet[0].chars {
      ClassOfFirstMatch(alphabet[1..], c);
      assert forall i :: 1 <= i < |alphabet| ==> alphabet[1..][i - 1] == alphabet[i];
      if ClassOf(alphabet, c).Some? {
        var i :| 0 <= i < |alphabet[1..]|
          && c in alphabet[1..][i].chars && alphabet[1..][i].alias == ClassOf(alphabet, c).value
          && forall j :: 0 <= j < i ==> c !in alphabet[1..][j].chars;
        assert alphabet[i + 1] == alphabet[1..][i];
      }
    }
  }

  /** The converse reading: if `i` is the first class containing `c`, its alias is chosen. */
  lemma ClassOfAt(alphabet: seq<AlphabetEntry>, c: char, i: nat)
    requires i < |alphabet| && c in alphabet[i].chars
    requires forall j :: 0 <= j < i ==> c !in alphabet[j].chars
    ensures ClassOf(alphabet, c) == Some(alphabet[i].alias)
  {
    ClassOfFirstMatch(alphabet, c);
    var k :| 0 <= k < |alphabet| && c in alphabet[k].chars && alphabet[k].alias == ClassOf(alphabet, c).value
      && forall j :: 0 <= j < k ==> c !in alphabet[j].chars;
    assert k == i;
  }

  /** Classes that share no character: then the iteration order of the
      class table cannot change which alias a character gets. */
  predicate DisjointClasses(alphabet: seq<AlphabetEntry>)
  {
    forall i, j, c :: 0 <= i < j < |alphabet| && c in alphabet[i].chars ==> c !in alphabet[j].chars
  }

  lemma ClassOfDisjoint(alphabet: seq<AlphabetEntry>, c: char, alias: string)
    requires DisjointClasses(alphabet)
    ensures ClassOf(alphabet, c) == Some(alias) <==>
      exists i :: 0 <= i < |alphabet| && c in alphabet[i].chars && alphabet[i].alias == alias
  {
    ClassOfFirstMatch(alphabet, c);
    if exists i :: 0 <= i < |alphabet| && c in alphabet[i].chars && alphabet[i].alias == alias {
      var i :| 0 <= i < |alphabet| && c in alphabet[i].chars && alphabet[i].alias == alias;
      ClassOfAt(alphabet, c, i);
    }
  }

  /** Class `i` is the first one, in alphabet order, that contains `c`. */
  predicate FirstClassAt(alphabet: seq<AlphabetEntry>, c: char, i: int)
  {
    0 <= i < |alphabet| && c in alphabet[i].chars && forall j :: 0 <= j < i ==> c !in alphabet[j].chars
  }

  /** The transition table sends `state` on `alias` to `target`. */
  predicate MovesTo(fa: FA, state: string, alias: string, target: string)
  {
    (state, alias) in fa.transitions && fa.transitions[(state, alias)] == target
  }

  /** One move: the first class containing `c`, then its transition from
      `state`. A missing entry and an empty target both mean "none". */
  function Step(fa: FA, state: string, c: char): (r: Option<string>)
    ensures (forall i :: 0 <= i < |fa.alphabet| ==> c !in fa.alphabet[i].chars) ==> r.None?
    ensures r.Some? ==> r.value != "" && exists i :: FirstClassAt(fa.alphabet, c, i) && MovesTo(fa, state, fa.alphabet[i].alias, r.value)
  {
    ClassOfFirstMatch(fa.alphabet, c);
    match ClassOf(fa.alphabet, c)
    case None => None
    case Some(alias) =>
      var target := if (state, alias) in fa.transitions then fa.transitions[(state, alias)] else "";
      if target == "" then None else Some(target)
  }

  /** The state reached from `state` after reading all of `input`, or None
      as soon as some character has no move. */
  function Run(fa: FA, state: string, input: string): (r: Option<string>)
    ensures r.Some? ==> r.value == state || r.value in fa.transitions.Values
    ensures r.Some? ==> forall k :: 0 <= k < |input| ==> ClassOf(fa.alphabet, input[k]).Some?
    decreases |input|
  {
    if |input| == 0 then Some(state)
    else
      match Step(fa, state, input[0])
      case None => None
      case Some(next) =>
        assert forall k :: 1 <= k < |input| ==> input[1..][k - 1] == input[k];
        Run(fa, next, input[1..])
  }

  /** Accepted: the run from the initial state ends in a final state. That
      state is the initial one or the target of some transition, and every
      character of the input belongs to some class. */
  function Accepts(fa: FA, input: string): (b: bool)
    ensures b ==> fa.initial in fa.finals || exists q :: q in fa.finals && q in fa.transitions.Values
    ensures b ==> forall k :: 0 <= k < |input| ==> ClassOf(fa.alphabet, input[k]).Some?
  {
    var q := Run(fa, fa.initial, input);
    q.Some? && q.value in fa.finals
  }

  /** Running over a concatenation runs over each part in turn. */
  lemma {:induction false} RunAppend(fa: FA, state: string, u: string, v: string)
    ensures Run(fa, state, u + v) == (match Run(fa, state, u) case None => None case Some(q) => Run(fa, q, v))
    decreases |u|
  {
    if |u| == 0 {
      assert u + v == v;
    } else {
      assert (u + v)[0] == u[0];
      assert (u + v)[1..] == u[1..] + v;
      match Step(fa, state, u[0]) {
        case None =>
        case Some(next) => RunAppend(fa, next, u[1..], v);
      }
    }
  }

  /** The empty input is accepted exactly when the initial state is final. */
  lemma AcceptsEmpty(fa: FA)
    ensures Accepts(fa, "") <==> fa.initial in fa.finals
  {
  }

  /** A character that belongs to no class rejects the input. */
  lemma RejectUnclassified(fa: FA, input: string, i: nat)
    requires i < |input| && ClassOf(fa.alphabet, input[i]).None?
    ensures !Accepts(fa, input)
  {
    BlockedRejects(fa, input, i);
  }

  /** Rejection is immediate once the current state has no move for the
      first class of the next character, whatever later classes allow. */
  lemma BlockedRejects(fa: FA, input: string, i: nat)
    requires i < |input|
    requires var q := Run(fa, fa.initial, input[..i]); q.None? || Step(fa, q.value, input[i]).None?
    ensures !Accepts(fa, input)
  {
    assert input == input[..i] + input[i..];
    RunAppend(fa, fa.initial, input[..i], input[i..]);
  }

  /** Reading `u` to a state `q` and then `v` from `q` to a final state
      accepts `u + v`. */
  lemma AcceptsPath(fa: FA, u: string, q: string, v: string)
    requires Run(fa, fa.initial, u) == Some(q)
    requires Run(fa, q, v).Some? && Run(fa, q, v).value in fa.finals
    ensures Accepts(fa, u + v)
  {
    RunAppend(fa, fa.initial, u, v);
  }

  /** `checkIfConsistent`: resets the current state to the initial one, then
      scans the classes for each character and stops at the first that
      contains it. The answer depends on the tables and the input only. */
  method CheckIfConsistent(fa: FA, input: string) returns (accepted: bool)
    ensures accepted <==> Accepts(fa, input)
  {
    var current := fa.initial;
    var i := 0;
    while i < |input|
      invariant 0 <= i <= |input|
      invariant Run(fa, fa.initial, input) == Run(fa, current, input[i..])
    {
      var ch := input[i];
      var j := 0;
      while j < |fa.alphabet| && ch !in fa.alphabet[j].chars
        invariant 0 <= j <= |fa.alphabet|
        invariant forall k :: 0 <= k < j ==> ch !in fa.alphabet[k].chars
      {
        j := j + 1;
      }
      if j == |fa.alphabet| {
        ClassOfFirstMatch(fa.alphabet, ch);
        return false;
      }
      ClassOfAt(fa.alphabet, ch, j);
      var key := (current, fa.alphabet[j].alias);
      if key !in fa.transitions || fa.transitions[key] == "" {
        return false;
      }
      assert input[i..][1..] == input[i + 1..];
      current := fa.transitions[key];
      i := i + 1;
    }
    accepted := current in fa.finals;
  }
}
