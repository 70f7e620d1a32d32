// Structures as text: rendered, spread out with white space, and read back.
module CelText {
  import opened Bytes
  import opened Cel

  // ---------- The grammar the printers write ----------

  datatype Field = Field(name: string, value: Term)

  datatype Term =
    | TStr(s: string)
    | TArr(items: seq<Term>)
    | TObject(name: string, fields: seq<Field>)
    | TFunction(name: string, args: seq<Term>)

  function Render(t: Term): string {
    match t
    case TStr(s) => "\"" + s + "\""
    case TArr(items) => "[" + RenderItems(items) + "]"
    case TObject(name, fields) => name + "{" + RenderFields(fields) + "}"
    case TFunction(name, args) => name + "(" + RenderItems(args) + ")"
  }

  function RenderItems(items: seq<Term>): string {
    if items == [] then "" else Render(items[0]) + RenderItemsTail(items[1..])
  }

  function RenderItemsTail(items: seq<Term>): string {
    if items == [] then "" else "," + Render(items[0]) + RenderItemsTail(items[1..])
  }

  function RenderField(f: Field): string {
    f.name + ":" + Render(f.value)
  }

  function RenderFields(fields: seq<Field>): string {
    if fields == [] then "" else RenderField(fields[0]) + RenderFieldsTail(fields[1..])
  }

  function RenderFieldsTail(fields: seq<Field>): string {
    if fields == [] then "" else "," + RenderField(fields[0]) + RenderFieldsTail(fields[1..])
  }

  // The parsed form of a term.
  function ValueOf(t: Term): CelValue {
    match t
    case TStr(s) => Str(s)
    case TArr(items) => Arr(ValuesOf(items))
    case TObject(name, fields) => Object(name, Collect(PairsOf(fields)))
    case TFunction(name, args) => Function(name, ValuesOf(args))
  }

  function ValuesOf(items: seq<Term>): seq<CelValue> {
    if items == [] then [] else [ValueOf(items[0])] + ValuesOf(items[1..])
  }

  function PairsOf(fields: seq<Field>): seq<(string, CelValue)> {
    if fields == [] then [] else [(fields[0].name, ValueOf(fields[0].value))] + PairsOf(fields[1..])
  }

  predicate AllIdent(s: string) {
    forall k :: 0 <= k < |s| ==> IdentChar(s[k])
  }

  predicate AllSpace(s: string) {
    forall k :: 0 <= k < |s| ==> Space(s[k])
  }

  // The characters at the start of a name that a string literal takes.
  function Literal(s: string): (r: string)
    ensures AllStr(r) && r <= s
  {
    ParseStr(s).0
  }

  // Characters of a string literal, and white space behind them.
  predicate Readable(s: string) {
    AllSpace(s[|Literal(s)|..])
  }

  // Names are identifiers, and no string ends before its closing quote.
  predicate Delimited(t: Term) {
    match t
    case TStr(s) => '\"' !in s
    case TArr(items) => DelimitedItems(items)
    case TObject(name, fields) => AllIdent(name) && DelimitedFields(fields)
    case TFunction(name, args) => AllIdent(name) && DelimitedItems(args)
  }

  predicate DelimitedItems(items: seq<Term>) {
    items == [] || (Delimited(items[0]) && DelimitedItems(items[1..]))
  }

  predicate DelimitedFields(fields: seq<Field>) {
    fields == [] || (AllIdent(fields[0].name) && Delimited(fields[0].value) && DelimitedFields(fields[1..]))
  }

  predicate Legible(t: Term) {
    match t
    case TStr(s) => Readable(s)
    case TArr(items) => LegibleItems(items)
    case TObject(_, fields) => LegibleFields(fields)
    case TFunction(_, args) => LegibleItems(args)
  }

  predicate LegibleItems(items: seq<Term>) {
    items == [] || (Legible(items[0]) && LegibleItems(items[1..]))
  }

  predicate LegibleFields(fields: seq<Field>) {
    fields == [] || (Legible(fields[0].value) && LegibleFields(fields[1..]))
  }

  // Every string cut down to its literal.
  function Trim(t: Term): Term {
    match t
    case TStr(s) => TStr(Literal(s))
    case TArr(items) => TArr(TrimItems(items))
    case TObject(name, fields) => TObject(name, TrimFields(fields))
    case TFunction(name, args) => TFunction(name, TrimItems(args))
  }

  function TrimItems(items: seq<Term>): (r: seq<Term>)
    ensures |r| == |items|
  {
    if items == [] then [] else [Trim(items[0])] + TrimItems(items[1..])
  }

  function TrimFields(fields: seq<Field>): (r: seq<Field>)
    ensures |r| == |fields|
  {
    if fields == [] then [] else [Field(fields[0].name, Trim(fields[0].value))] + TrimFields(fields[1..])
  }

  // ---------- White space between tokens ----------

  // i is j with white space before it.
  predicate Gap(i: string, j: string) {
    |j| <= |i| && i[|i| - |j|..] == j && AllSpace(i[..|i| - |j|])
  }

  // i is a text of the term, with any white space before each of its tokens, and then the rest. A string is one
  // token, quotes and all.
  ghost predicate Spells(t: Term, i: string, rest: string)
    decreases t, 1
  {
    match t
    case TStr(s) => Gap(i, "\"" + s + "\"" + rest)
    case TArr(items) =>
      exists body, end :: Gap(i, ['['] + body) && SpellsItems(items, body, end) && Gap(end, [']'] + rest)
    case TObject(name, fields) =>
      exists after, body, end ::
        Gap(i, name + after) && Gap(after, ['{'] + body) && SpellsFields(fields, body, end) && Gap(end, ['}'] + rest)
    case TFunction(name, args) =>
      exists after, body, end ::
        Gap(i, name + after) && Gap(after, ['('] + body) && SpellsItems(args, body, end) && Gap(end, [')'] + rest)
  }

  ghost predicate SpellsItems(items: seq<Term>, i: string, rest: string)
    decreases items, 0
  {
    if items == [] then i == rest
    else exists j :: Spells(items[0], i, j) && SpellsItemsTail(items[1..], j, rest)
  }

  ghost predicate SpellsItemsTail(items: seq<Term>, i: string, rest: string)
    decreases items, 0
  {
    if items == [] then i == rest
    else exists j, k :: Gap(i, [','] + j) && Spells(items[0], j, k) && SpellsItemsTail(items[1..], k, rest)
  }

  ghost predicate SpellsField(f: Field, i: string, rest: string)
    decreases f, 0
  {
    exists after, j :: Gap(i, f.name + after) && Gap(after, [':'] + j) && Spells(f.value, j, rest)
  }

  ghost predicate SpellsFields(fields: seq<Field>, i: string, rest: string)
    decreases fields, 0
  {
    if fields == [] then i == rest
    else exists j :: SpellsField(fields[0], i, j) && SpellsFieldsTail(fields[1..], j, rest)
  }

  ghost predicate SpellsFieldsTail(fields: seq<Field>, i: string, rest: string)
    decreases fields, 0
  {
    if fields == [] then i == rest
    else exists j, k :: Gap(i, [','] + j) && SpellsField(fields[0], j, k) && SpellsFieldsTail(fields[1..], k, rest)
  }

  // ---------- Reading ----------

  lemma {:induction false} TakeAll(p: char -> bool, s: string, rest: string)
    requires forall i :: 0 <= i < |s| ==> p(s[i])
    requires rest == [] || !p(rest[0])
    ensures TakeWhile(p, s + rest) == (s, rest)
  {
    if s == [] {
      assert s + rest == rest;
    } else {
      assert (s + rest)[1..] == s[1..] + rest;
      TakeAll(p, s[1..], rest);
      assert [s[0]] + s[1..] == s;
    }
  }

  // A parser that stops within s leaves what follows as it was.
  lemma {:induction false} TakeInside(p: char -> bool, s: string, rest: string)
    requires rest == [] || !p(rest[0])
    ensures TakeWhile(p, s + rest) == (TakeWhile(p, s).0, TakeWhile(p, s).1 + rest)
  {
    if s == [] {
      assert s + rest == rest;
    } else {
      assert (s + rest)[1..] == s[1..] + rest;
      TakeInside(p, s[1..], rest);
    }
  }

  lemma IdentIsNotSpace(c: char)
    ensures IdentChar(c) ==> !Space(c)
  {
  }

  lemma {:induction false} SkipGap(w: string, rest: string)
    requires AllSpace(w)
    ensures SkipSpace(w + rest) == SkipSpace(rest)
  {
    if w == [] {
      assert w + rest == rest;
    } else {
      assert (w + rest)[1..] == w[1..] + rest;
      SkipGap(w[1..], rest);
    }
  }

  lemma GapItself(i: string)
    ensures Gap(i, i)
  {
    assert i[..0] == [];
  }

  lemma GapParts(i: string, j: string) returns (w: string)
    requires Gap(i, j)
    ensures AllSpace(w) && i == w + j
  {
    w := i[..|i| - |j|];
  }

  // A separator with white space before it.
  lemma SeparatorAfter(i: string, c: char, rest: string)
    requires Gap(i, [c] + rest) && !Space(c)
    ensures forall o :: Separator(o, i) == if o == c then Some(rest) else None
  {
    var w := GapParts(i, [c] + rest);
    SkipGap(w, [c] + rest);
    assert ([c] + rest)[1..] == rest;
  }

  // A name and a separator, whatever white space stands before the separator.
  lemma NameReads(name: string, after: string, c: char, body: string)
    requires AllIdent(name) && Gap(after, [c] + body) && !Space(c) && !IdentChar(c)
    ensures var (n, rest) := Ident(SkipSpace(name + after));
      n == name && forall o :: Separator(o, rest) == if o == c then Some(body) else None
  {
    hide IdentChar, Space;
    var w := GapParts(after, [c] + body);
    SeparatorAfter(after, c, body);
    if name == [] {
      assert name + after == after;
      SkipGap(w, [c] + body);
      assert Gap([c] + body, [c] + body);
      SeparatorAfter([c] + body, c, body);
    } else {
      IdentIsNotSpace(name[0]);
      if w != [] { IdentIsNotSpace(w[0]); }
      assert after[0] == if w == [] then c else w[0];
      TakeAll(x => IdentChar(x), name, after);
      assert (name + after)[0] == name[0];
    }
  }

  lemma GapBefore(i: string, j: string)
    requires Gap(i, j)
    ensures ParseCelValue(i) == ParseCelValue(j) && ParseKeyValue(i) == ParseKeyValue(j)
  {
    hide ParseObject, ParseFunction, ParseArray, ParseString;
    var w := GapParts(i, j);
    SkipGap(w, j);
  }

  // Where no bracketed term starts.
  lemma NoBracket(i: string)
    requires i != [] && !Space(i[0]) && !IdentChar(i[0]) && i[0] !in {'{', '(', '['}
    ensures SkipSpace(i) == i && ParseObject(i) == Error && ParseFunction(i) == Error && ParseArray(i) == Error
  {
    hide ParseFields, ParseValues, Clean;
    assert SkipSpace(i) == i;
    assert Ident(i) == ([], i);
    assert Separator('{', i).None? && Separator('(', i).None? && Separator('[', i).None?;
  }

  // A list item cannot start where a closing bracket stands.
  lemma NoValueAtClose(i: string, c: char, after: string)
    requires Gap(i, [c] + after) && (c == ']' || c == ')')
    ensures ParseCelValue(i) == Error
  {
    hide ParseObject, ParseFunction, ParseArray;
    GapBefore(i, [c] + after);
    NoBracket([c] + after);
    assert Separator('\"', [c] + after).None?;
  }

  lemma NoFieldAtClose(i: string, after: string)
    requires Gap(i, ['}'] + after)
    ensures ParseKeyValue(i) == Error
  {
    hide ParseCelValue, Clean, AllStr;
    GapBefore(i, ['}'] + after);
    assert Gap(['}'] + after, ['}'] + after);
    NameReads("", ['}'] + after, '}', after);
    assert "" + (['}'] + after) == ['}'] + after;
  }

  // The three bracketed terms, from what is read between the brackets.
  lemma ObjectReads(i: string, name: string, after: string, body: string, fields: seq<(string, CelValue)>, end: string,
                    rest: string)
    requires AllIdent(name) && Gap(i, name + after) && Gap(after, ['{'] + body) && Gap(end, ['}'] + rest)
    ensures ParseFields(body) == Ok(fields, end) ==> ParseCelValue(i) == Ok(Object(name, Collect(fields)), rest)
    ensures ParseFields(body) == Failure ==> ParseCelValue(i) == Failure
  {
    hide ParseFields, Collect, Separator, Gap, AllIdent;
    GapBefore(i, name + after);
    NameReads(name, after, '{', body);
    SeparatorAfter(end, '}', rest);
    assert ParseFields(body) == Ok(fields, end) ==>
      ParseObject(SkipSpace(name + after)) == Ok(Object(name, Collect(fields)), rest);
  }

  lemma FunctionReads(i: string, name: string, after: string, body: string, args: seq<CelValue>, end: string,
                      rest: string)
    requires AllIdent(name) && Gap(i, name + after) && Gap(after, ['('] + body) && Gap(end, [')'] + rest)
    ensures ParseValues(body) == Ok(args, end) ==> ParseCelValue(i) == Ok(Function(name, args), rest)
    ensures ParseValues(body) == Failure ==> ParseCelValue(i) == Failure
  {
    hide ParseValues, ParseFields, Separator, Gap, AllIdent;
    GapBefore(i, name + after);
    NameReads(name, after, '(', body);
    SeparatorAfter(end, ')', rest);
    var s := SkipSpace(name + after);
    assert ParseObject(s) == Error;
    assert ParseValues(body) == Ok(args, end) ==> ParseFunction(s) == Ok(Function(name, args), rest);
  }

  lemma ArrayReads(i: string, body: string, items: seq<CelValue>, end: string, rest: string)
    requires Gap(i, ['['] + body) && Gap(end, [']'] + rest)
    ensures ParseValues(body) == Ok(items, end) ==> ParseCelValue(i) == Ok(Arr(items), rest)
    ensures ParseValues(body) == Failure ==> ParseCelValue(i) == Failure
  {
    hide ParseValues, ParseObject, ParseFunction, Separator, Gap, Clean;
    var s := ['['] + body;
    GapBefore(i, s);
    ArrayOpens(body);
    SeparatorAfter(end, ']', rest);
    assert ParseValues(body) == Ok(items, end) ==> ParseArray(s) == Ok(Arr(items), rest);
  }

  lemma ArrayOpens(body: string)
    ensures var s := ['['] + body;
      && SkipSpace(s) == s && Separator('[', s) == Some(body) && ParseObject(s) == Error && ParseFunction(s) == Error
  {
    hide ParseValues, ParseFields, Separator, AllSpace, Clean;
    var s := ['['] + body;
    GapItself(s);
    assert "" + s == s;
    NameReads("", s, '[', body);
    SeparatorAfter(s, '[', body);
    assert SkipSpace(s) == s;
    assert Separator('{', Ident(s).1).None? && Separator('(', Ident(s).1).None?;
    assert ParseObject(s) == Error;
  }

  // What stands before the closing character may only be white space.
  lemma {:induction false} CloseAfter<T>(c: char, value: T, s: string, rest: string)
    requires !Space(c) && c !in s
    ensures Close(c, value, s + ([c] + rest)) == if AllSpace(s) then Ok(value, rest) else Failure
  {
    if s == [] {
      assert s + ([c] + rest) == [c] + rest;
      assert ([c] + rest)[1..] == rest;
    } else {
      assert (s + ([c] + rest))[1..] == s[1..] + ([c] + rest);
      if Space(s[0]) {
        CloseAfter(c, value, s[1..], rest);
        assert AllSpace(s) <==> AllSpace(s[1..]) by { assert s == [s[0]] + s[1..]; }
      }
    }
  }

  lemma ReadString(s: string, rest: string)
    requires '\"' !in s
    ensures ParseCelValue("\"" + s + "\"" + rest) == if Readable(s) then Ok(Str(Literal(s)), rest) else Failure
  {
    hide Close;
    var i := "\"" + s + "\"" + rest;
    var (r, left) := ParseStr(s);
    assert i[1..] == s + ("\"" + rest);
    StringOnly(i);
    TakeInside(c => StrChar(c), s, "\"" + rest);
    assert left == s[|r|..];
    CloseAfter('\"', Str(r), left, rest);
    assert "\"" + rest == ['\"'] + rest;
  }

  lemma StringOnly(i: string)
    requires i != [] && i[0] == '\"'
    ensures ParseCelValue(i) == ParseString(i) && Separator('\"', i) == Some(i[1..])
  {
    hide ParseObject, ParseFunction, ParseArray, ParseString;
    NoBracket(i);
  }

  // A text of a delimited term is read to its end, whatever white space stands between its tokens, and without the
  // white space behind its strings; or it is a syntax error.
  lemma {:induction false} ReadSpells(t: Term, i: string, rest: string)
    requires Delimited(t) && Spells(t, i, rest)
    ensures ParseCelValue(i) == if Legible(t) then Ok(ValueOf(Trim(t)), rest) else Failure
    decreases t, 1
  {
    hide ParseCelValue, ParseValues, ParseFields, Gap, SpellsItems, SpellsFields, Readable, Collect, AllIdent;
    match t
    case TStr(s) =>
      ReadString(s, rest);
      GapBefore(i, "\"" + s + "\"" + rest);
    case TArr(items) =>
      var body, end :| Gap(i, ['['] + body) && SpellsItems(items, body, end) && Gap(end, [']'] + rest);
      ReadSpellsItems(items, body, end, ']', rest);
      ArrayReads(i, body, ValuesOf(TrimItems(items)), end, rest);
    case TFunction(name, args) =>
      var after, body, end :|
        Gap(i, name + after) && Gap(after, ['('] + body) && SpellsItems(args, body, end) && Gap(end, [')'] + rest);
      ReadSpellsItems(args, body, end, ')', rest);
      FunctionReads(i, name, after, body, ValuesOf(TrimItems(args)), end, rest);
    case TObject(name, fields) =>
      var after, body, end :|
        Gap(i, name + after) && Gap(after, ['{'] + body) && SpellsFields(fields, body, end) && Gap(end, ['}'] + rest);
      ReadSpellsFields(fields, body, end, rest);
      ObjectReads(i, name, after, body, PairsOf(TrimFields(fields)), end, rest);
  }

  lemma ValuesTailStep(i: string, after: string, v: CelValue, rest: string)
    requires Separator(',', i) == Some(after)
    ensures ParseCelValue(after) == Failure ==> ParseValuesTail(i) == Failure
    ensures ParseCelValue(after) == Ok(v, rest) ==>
      ParseValuesTail(i) == match ParseValuesTail(rest)
        case Ok(vs, end) => Ok([v] + vs, end)
        case _ => Failure
  {
  }

  lemma FieldsTailStep(i: string, after: string, v: (string, CelValue), rest: string)
    requires Separator(',', i) == Some(after)
    ensures ParseKeyValue(after) == Failure ==> ParseFieldsTail(i) == Failure
    ensures ParseKeyValue(after) == Ok(v, rest) ==>
      ParseFieldsTail(i) == match ParseFieldsTail(rest)
        case Ok(vs, end) => Ok([v] + vs, end)
        case _ => Failure
  {
  }

  lemma {:induction false} ReadSpellsItems(items: seq<Term>, i: string, end: string, c: char, rest: string)
    requires DelimitedItems(items) && SpellsItems(items, i, end) && Gap(end, [c] + rest) && (c == ']' || c == ')')
    ensures ParseValues(i) == if LegibleItems(items) then Ok(ValuesOf(TrimItems(items)), end) else Failure
    decreases items, 0
  {
    hide Delimited, Legible, Trim, AllIdent, Gap, ParseCelValue, ParseKeyValue, Spells, ValueOf;
    if items == [] {
      NoValueAtClose(end, c, rest);
    } else {
      var j :| Spells(items[0], i, j) && SpellsItemsTail(items[1..], j, end);
      ReadSpells(items[0], i, j);
      ReadSpellsItemsTail(items[1..], j, end, c, rest);
      TrimmedValues(items);
    }
  }

  lemma TrimmedValues(items: seq<Term>)
    requires items != []
    ensures ValuesOf(TrimItems(items)) == [ValueOf(Trim(items[0]))] + ValuesOf(TrimItems(items[1..]))
  {
    assert TrimItems(items)[1..] == TrimItems(items[1..]);
  }

  lemma {:induction false} ReadSpellsItemsTail(items: seq<Term>, i: string, end: string, c: char, rest: string)
    requires DelimitedItems(items) && SpellsItemsTail(items, i, end) && Gap(end, [c] + rest) && (c == ']' || c == ')')
    ensures ParseValuesTail(i) == if LegibleItems(items) then Ok(ValuesOf(TrimItems(items)), end) else Failure
    decreases items, 0
  {
    hide Delimited, Legible, Trim, AllIdent, Gap, ParseCelValue, ParseKeyValue, Spells, ValueOf, Separator;
    if items == [] {
      SeparatorAfter(end, c, rest);
    } else {
      var j, k :| Gap(i, [','] + j) && Spells(items[0], j, k) && SpellsItemsTail(items[1..], k, end);
      SeparatorAfter(i, ',', j);
      ReadSpells(items[0], j, k);
      ReadSpellsItemsTail(items[1..], k, end, c, rest);
      TrimmedValues(items);
      ValuesTailStep(i, j, ValueOf(Trim(items[0])), k);
    }
  }

  lemma {:induction false} ReadSpellsField(f: Field, i: string, rest: string)
    requires AllIdent(f.name) && Delimited(f.value) && SpellsField(f, i, rest)
    ensures ParseKeyValue(i) == if Legible(f.value) then Ok((f.name, ValueOf(Trim(f.value))), rest) else Failure
    decreases f, 0
  {
    hide ParseCelValue, Spells, Gap, AllIdent;
    var after, j :| Gap(i, f.name + after) && Gap(after, [':'] + j) && Spells(f.value, j, rest);
    GapBefore(i, f.name + after);
    NameReads(f.name, after, ':', j);
    ReadSpells(f.value, j, rest);
  }

  lemma {:induction false} ReadSpellsFields(fields: seq<Field>, i: string, end: string, rest: string)
    requires DelimitedFields(fields) && SpellsFields(fields, i, end) && Gap(end, ['}'] + rest)
    ensures ParseFields(i) == if LegibleFields(fields) then Ok(PairsOf(TrimFields(fields)), end) else Failure
    decreases fields, 0
  {
    hide Delimited, Legible, Trim, AllIdent, Gap, ParseCelValue, ParseKeyValue, SpellsField, ValueOf, Clean;
    if fields == [] {
      NoFieldAtClose(end, rest);
    } else {
      var j :| SpellsField(fields[0], i, j) && SpellsFieldsTail(fields[1..], j, end);
      ReadSpellsField(fields[0], i, j);
      ReadSpellsFieldsTail(fields[1..], j, end, rest);
      TrimmedPairs(fields);
    }
  }

  lemma TrimmedPairs(fields: seq<Field>)
    requires fields != []
    ensures PairsOf(TrimFields(fields)) ==
      [(fields[0].name, ValueOf(Trim(fields[0].value)))] + PairsOf(TrimFields(fields[1..]))
  {
    assert TrimFields(fields)[1..] == TrimFields(fields[1..]);
  }

  lemma {:induction false} ReadSpellsFieldsTail(fields: seq<Field>, i: string, end: string, rest: string)
    requires DelimitedFields(fields) && SpellsFieldsTail(fields, i, end) && Gap(end, ['}'] + rest)
    ensures ParseFieldsTail(i) == if LegibleFields(fields) then Ok(PairsOf(TrimFields(fields)), end) else Failure
    decreases fields, 0
  {
    hide Delimited, Legible, Trim, AllIdent, Gap, ParseCelValue, ParseKeyValue, SpellsField, ValueOf, Clean, Separator;
    if fields == [] {
      SeparatorAfter(end, '}', rest);
    } else {
      var j, k :| Gap(i, [','] + j) && SpellsField(fields[0], j, k) && SpellsFieldsTail(fields[1..], k, end);
      SeparatorAfter(i, ',', j);
      ReadSpellsField(fields[0], j, k);
      ReadSpellsFieldsTail(fields[1..], k, end, rest);
      TrimmedPairs(fields);
      FieldsTailStep(i, j, (fields[0].name, ValueOf(Trim(fields[0].value))), k);
    }
  }

  // ---------- Nothing else is read ----------

  lemma {:induction false} SkippedIsGap(i: string)
    ensures Gap(i, SkipSpace(i))
  {
    if i != [] && Space(i[0]) {
      SkippedIsGap(i[1..]);
      var j := SkipSpace(i);
      assert i == [i[0]] + i[1..];
      assert i[..|i| - |j|] == [i[0]] + i[1..][..|i| - 1 - |j|];
    } else {
      assert i[..0] == [];
    }
  }

  lemma SeparatorIsGap(c: char, i: string)
    requires Separator(c, i).Some?
    ensures Gap(i, [c] + Separator(c, i).value)
  {
    SkippedIsGap(i);
  }

  lemma LiteralAndSpace(a: string, w: string)
    requires AllStr(a) && AllSpace(w)
    ensures Readable(a + w) && Literal(a + w) == a && '\"' !in a + w
  {
    assert !StrChar('\"');
    assert w != [] ==> !StrChar(w[0]);
    TakeAll(c => StrChar(c), a, w);
    assert (a + w)[|a|..] == w;
  }

  lemma NameIsIdent(i: string)
    ensures AllIdent(Ident(i).0) && i == Ident(i).0 + Ident(i).1
  {
  }

  ghost predicate IsReadAs(t: Term, i: string, v: CelValue, rest: string) {
    Delimited(t) && Legible(t) && Spells(t, i, rest) && ValueOf(Trim(t)) == v
  }

  ghost predicate AreReadAs(items: seq<Term>, v: seq<CelValue>) {
    DelimitedItems(items) && LegibleItems(items) && ValuesOf(TrimItems(items)) == v
  }

  ghost predicate FieldsReadAs(fields: seq<Field>, v: seq<(string, CelValue)>) {
    DelimitedFields(fields) && LegibleFields(fields) && PairsOf(TrimFields(fields)) == v
  }

  // Whatever the parser accepts is a text of some term, up to where the parser stops, and is read as that term.
  lemma {:induction false} ParsedSpells(i: string) returns (t: Term)
    requires ParseCelValue(i).Ok?
    ensures IsReadAs(t, i, ParseCelValue(i).value, ParseCelValue(i).rest)
    decreases |i|, 4
  {
    hide ParseObject, ParseFunction, ParseArray, ParseString, Gap, IsReadAs;
    var s := SkipSpace(i);
    SkippedIsGap(i);
    if ParseObject(s).Ok? {
      t := ParsedObject(i);
    } else if ParseFunction(s).Ok? {
      t := ParsedFunction(i);
    } else if ParseArray(s).Ok? {
      t := ParsedArray(i);
    } else {
      t := ParsedString(i);
    }
  }

  lemma {:induction false} ParsedObject(i: string) returns (t: Term)
    requires ParseObject(SkipSpace(i)).Ok?
    ensures IsReadAs(t, i, ParseObject(SkipSpace(i)).value, ParseObject(SkipSpace(i)).rest)
    decreases |i|, 3
  {
    hide ParseFields, Collect, Gap, Separator, Clean, AllIdent;
    var s := SkipSpace(i);
    SkippedIsGap(i);
    NameIsIdent(s);
    var (name, after) := Ident(s);
    SeparatorIsGap('{', after);
    var body := Separator('{', after).value;
    var fields := ParsedFields(body);
    SeparatorIsGap('}', ParseFields(body).rest);
    t := TObject(name, fields);
  }

  lemma {:induction false} ParsedFunction(i: string) returns (t: Term)
    requires ParseFunction(SkipSpace(i)).Ok?
    ensures IsReadAs(t, i, ParseFunction(SkipSpace(i)).value, ParseFunction(SkipSpace(i)).rest)
    decreases |i|, 3
  {
    hide ParseValues, Gap, Separator, Clean, AllIdent;
    var s := SkipSpace(i);
    SkippedIsGap(i);
    NameIsIdent(s);
    var (name, after) := Ident(s);
    SeparatorIsGap('(', after);
    var body := Separator('(', after).value;
    var args := ParsedItems(body);
    SeparatorIsGap(')', ParseValues(body).rest);
    t := TFunction(name, args);
  }

  lemma {:induction false} ParsedArray(i: string) returns (t: Term)
    requires ParseArray(SkipSpace(i)).Ok?
    ensures IsReadAs(t, i, ParseArray(SkipSpace(i)).value, ParseArray(SkipSpace(i)).rest)
    decreases |i|, 3
  {
    hide ParseValues, Gap, Separator, Clean;
    var s := SkipSpace(i);
    SkippedIsGap(i);
    SeparatorIsGap('[', s);
    GapTwice(i, s, ['['] + Separator('[', s).value);
    var body := Separator('[', s).value;
    var items := ParsedItems(body);
    SeparatorIsGap(']', ParseValues(body).rest);
    t := TArr(items);
  }

  lemma GapTwice(i: string, j: string, k: string)
    requires Gap(i, j) && Gap(j, k)
    ensures Gap(i, k)
  {
    var v := GapParts(i, j);
    var w := GapParts(j, k);
    assert i == (v + w) + k;
    assert i[..|i| - |k|] == v + w;
  }

  lemma ParsedString(i: string) returns (t: Term)
    requires ParseString(SkipSpace(i)).Ok?
    ensures IsReadAs(t, i, ParseString(SkipSpace(i)).value, ParseString(SkipSpace(i)).rest)
  {
    hide Gap, Separator, Literal, Readable;
    var s := SkipSpace(i);
    SkippedIsGap(i);
    SeparatorIsGap('\"', s);
    var body := Separator('\"', s).value;
    GapTwice(i, s, ['\"'] + body);
    var (r, left) := ParseStr(body);
    SeparatorIsGap('\"', left);
    var rest := Separator('\"', left).value;
    var w := GapParts(left, ['\"'] + rest);
    LiteralAndSpace(r, w);
    t := TStr(r + w);
    Quoted(r, w, rest);
  }

  lemma Quoted(r: string, w: string, rest: string)
    ensures ['\"'] + (r + (w + (['\"'] + rest))) == "\"" + (r + w) + "\"" + rest
  {
  }

  lemma {:induction false} ParsedItems(i: string) returns (items: seq<Term>)
    requires ParseValues(i).Ok?
    ensures SpellsItems(items, i, ParseValues(i).rest) && AreReadAs(items, ParseValues(i).value)
    decreases |i|, 5
  {
    hide ParseCelValue, Delimited, Legible, Trim, ValueOf, Spells, Clean;
    items := [];
    if ParseCelValue(i).Ok? {
      var t := ParsedSpells(i);
      var more := ParsedItemsTail(ParseCelValue(i).rest);
      items := [t] + more;
      assert items[1..] == more;
      TrimmedValues(items);
    }
  }

  lemma {:induction false} ParsedItemsTail(i: string) returns (items: seq<Term>)
    requires ParseValuesTail(i).Ok?
    ensures SpellsItemsTail(items, i, ParseValuesTail(i).rest) && AreReadAs(items, ParseValuesTail(i).value)
    decreases |i|, 5
  {
    hide ParseCelValue, Delimited, Legible, Trim, ValueOf, Spells, Clean, Separator, Gap;
    items := [];
    if Separator(',', i).Some? && ParseCelValue(Separator(',', i).value).Ok? {
      var j := Separator(',', i).value;
      SeparatorIsGap(',', i);
      var t := ParsedSpells(j);
      var more := ParsedItemsTail(ParseCelValue(j).rest);
      items := [t] + more;
      assert items[1..] == more;
      TrimmedValues(items);
    }
  }

  lemma {:induction false} ParsedField(i: string) returns (f: Field)
    requires ParseKeyValue(i).Ok?
    ensures AllIdent(f.name) && Delimited(f.value) && Legible(f.value) && SpellsField(f, i, ParseKeyValue(i).rest)
    ensures ParseKeyValue(i).value == (f.name, ValueOf(Trim(f.value)))
    decreases |i|, 5
  {
    hide ParseCelValue, Delimited, Legible, Trim, ValueOf, Spells, Clean, Separator, Gap, AllIdent;
    var s := SkipSpace(i);
    SkippedIsGap(i);
    NameIsIdent(s);
    var (name, after) := Ident(s);
    SeparatorIsGap(':', after);
    var v := ParsedSpells(Separator(':', after).value);
    f := Field(name, v);
  }

  lemma {:induction false} ParsedFields(i: string) returns (fields: seq<Field>)
    requires ParseFields(i).Ok?
    ensures SpellsFields(fields, i, ParseFields(i).rest) && FieldsReadAs(fields, ParseFields(i).value)
    decreases |i|, 6
  {
    hide ParseKeyValue, Delimited, Legible, Trim, ValueOf, SpellsField, CleanFields, AllIdent;
    fields := [];
    if ParseKeyValue(i).Ok? {
      var f := ParsedField(i);
      var more := ParsedFieldsTail(ParseKeyValue(i).rest);
      fields := [f] + more;
      assert fields[1..] == more;
      TrimmedPairs(fields);
    }
  }

  lemma {:induction false} ParsedFieldsTail(i: string) returns (fields: seq<Field>)
    requires ParseFieldsTail(i).Ok?
    ensures SpellsFieldsTail(fields, i, ParseFieldsTail(i).rest) && FieldsReadAs(fields, ParseFieldsTail(i).value)
    decreases |i|, 6
  {
    hide ParseKeyValue, Delimited, Legible, Trim, ValueOf, SpellsField, CleanFields, AllIdent, Separator, Gap;
    fields := [];
    if Separator(',', i).Some? && ParseKeyValue(Separator(',', i).value).Ok? {
      var j := Separator(',', i).value;
      SeparatorIsGap(',', i);
      var f := ParsedField(j);
      var more := ParsedFieldsTail(ParseKeyValue(j).rest);
      fields := [f] + more;
      assert fields[1..] == more;
      TrimmedPairs(fields);
    }
  }

  // The parser reads exactly the texts of terms that are legible.
  lemma ParsesExactly(i: string, v: CelValue, rest: string)
    ensures ParseCelValue(i) == Ok(v, rest) <==> exists t :: IsReadAs(t, i, v, rest)
  {
    hide ParseCelValue, Delimited, Legible, Spells, ValueOf, Trim;
    if ParseCelValue(i) == Ok(v, rest) {
      var t := ParsedSpells(i);
    }
    if t :| IsReadAs(t, i, v, rest) {
      ReadSpells(t, i, rest);
    }
  }

  // ---------- Reading rendered terms ----------

  lemma Enclosed(name: string, open: string, body: string, close: string, rest: string)
    ensures name + open + body + close + rest == name + (open + (body + (close + rest)))
    ensures open + body + close + rest == open + (body + (close + rest))
  {
  }

  // Printed text has no white space between its tokens.
  lemma {:induction false} RenderSpells(t: Term, rest: string)
    ensures Spells(t, Render(t) + rest, rest)
    decreases t, 1
  {
    hide Gap, SpellsItems, SpellsFields, RenderItems, RenderFields;
    GapItself(Render(t) + rest);
    match t
    case TStr(s) =>
    case TArr(items) =>
      GapItself("]" + rest);
      RenderSpellsItems(items, "]" + rest);
      Enclosed("", "[", RenderItems(items), "]", rest);
    case TObject(name, fields) =>
      GapItself("}" + rest);
      GapItself("{" + (RenderFields(fields) + ("}" + rest)));
      RenderSpellsFields(fields, "}" + rest);
      Enclosed(name, "{", RenderFields(fields), "}", rest);
    case TFunction(name, args) =>
      GapItself(")" + rest);
      GapItself("(" + (RenderItems(args) + (")" + rest)));
      RenderSpellsItems(args, ")" + rest);
      Enclosed(name, "(", RenderItems(args), ")", rest);
  }

  lemma {:induction false} RenderSpellsItems(items: seq<Term>, rest: string)
    ensures SpellsItems(items, RenderItems(items) + rest, rest)
    decreases items, 0
  {
    if items != [] {
      var tail := RenderItemsTail(items[1..]) + rest;
      assert RenderItems(items) + rest == Render(items[0]) + tail;
      RenderSpells(items[0], tail);
      RenderSpellsItemsTail(items[1..], rest);
    } else {
      assert "" + rest == rest;
    }
  }

  lemma {:induction false} RenderSpellsItemsTail(items: seq<Term>, rest: string)
    ensures SpellsItemsTail(items, RenderItemsTail(items) + rest, rest)
    decreases items, 0
  {
    hide Gap;
    if items != [] {
      var tail := RenderItemsTail(items[1..]) + rest;
      var j := Render(items[0]) + tail;
      assert RenderItemsTail(items) + rest == [','] + j;
      GapItself([','] + j);
      RenderSpells(items[0], tail);
      RenderSpellsItemsTail(items[1..], rest);
    } else {
      assert "" + rest == rest;
    }
  }

  lemma {:induction false} RenderSpellsField(f: Field, rest: string)
    ensures SpellsField(f, RenderField(f) + rest, rest)
    decreases f, 0
  {
    hide Gap;
    var j := Render(f.value) + rest;
    var after := [':'] + j;
    assert RenderField(f) + rest == f.name + after;
    GapItself(f.name + after);
    GapItself(after);
    RenderSpells(f.value, rest);
  }

  lemma {:induction false} RenderSpellsFields(fields: seq<Field>, rest: string)
    ensures SpellsFields(fields, RenderFields(fields) + rest, rest)
    decreases fields, 0
  {
    if fields != [] {
      var tail := RenderFieldsTail(fields[1..]) + rest;
      assert RenderFields(fields) + rest == RenderField(fields[0]) + tail;
      RenderSpellsField(fields[0], tail);
      RenderSpellsFieldsTail(fields[1..], rest);
    } else {
      assert "" + rest == rest;
    }
  }

  lemma {:induction false} RenderSpellsFieldsTail(fields: seq<Field>, rest: string)
    ensures SpellsFieldsTail(fields, RenderFieldsTail(fields) + rest, rest)
    decreases fields, 0
  {
    hide Gap;
    if fields != [] {
      var tail := RenderFieldsTail(fields[1..]) + rest;
      var j := RenderField(fields[0]) + tail;
      assert RenderFieldsTail(fields) + rest == [','] + j;
      GapItself([','] + j);
      RenderSpellsField(fields[0], tail);
      RenderSpellsFieldsTail(fields[1..], rest);
    } else {
      assert "" + rest == rest;
    }
  }

  // A printed term is read to its end, without the white space behind its strings, or it is a syntax error.
  lemma ReadTerm(t: Term, rest: string)
    requires Delimited(t)
    ensures ParseCelValue(Render(t) + rest) == if Legible(t) then Ok(ValueOf(Trim(t)), rest) else Failure
  {
    hide ParseCelValue, Spells;
    RenderSpells(t, rest);
    ReadSpells(t, Render(t) + rest, rest);
  }
}
