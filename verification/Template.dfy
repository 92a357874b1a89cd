/**
 The template key builder of `cachine/decorators/_utils.py`: a loop of string replacements, one
 per placeholder, against one simultaneous substitution of all placeholders.
 */
module Template {
  import opened Wrappers

  // ---- Placeholders: {([^{}]+)} ----

  predicate IsBrace(c: char) {
    c == '{' || c == '}'
  }

  predicate BraceFree(s: string) {
    forall c | c in s :: !IsBrace(c)
  }

  /** The length of the longest brace-free prefix. */
  function Span(s: string): (n: nat)
    ensures n <= |s| && BraceFree(s[..n])
    ensures n < |s| ==> IsBrace(s[n])
  {
    if s == "" || IsBrace(s[0]) then 0
    else
      assert s[..1 + Span(s[1..])] == [s[0]] + s[1..][..Span(s[1..])];
      1 + Span(s[1..])
  }

  /** The name of the placeholder with which s begins, if it begins with one. */
  function NameAt(s: string): (name: Option<string>)
    ensures name.Some? ==>
      && name.value != "" && BraceFree(name.value) && |name.value| + 2 <= |s|
      && s[..|name.value| + 2] == "{" + name.value + "}"
  {
    if s == "" || s[0] != '{' then None
    else
      var n := Span(s[1..]);
      if n > 0 && n + 1 < |s| && s[n + 1] == '}' then
        assert s[..n + 2] == "{" + s[1..][..n] + "}";
        Some(s[1..][..n])
      else None
  }

  /** `PLACEHOLDER_RE.findall` */
  function Placeholders(s: string): seq<string>
    decreases |s|
  {
    if s == "" then []
    else
      match NameAt(s)
      case Some(name) => [name] + Placeholders(s[|name| + 2..])
      case None => Placeholders(s[1..])
  }

  // ---- Values ----

  /** An argument or attribute, normalized: `None`, a text, or something whose `str` raises. */
  datatype Item = NoneItem | Text(text: string) | Unprintable

  datatype Arguments = Arguments(
    ctx: Option<map<string, Item>>,
    args: seq<Item>,
    kwargs: map<string, Item>,
    parseInt: string -> Option<int>)

  /** `s[5:-1]` for a string of at least five characters. */
  function InsideBrackets(s: string): string
    requires |s| >= 5
  {
    if |s| <= 6 then "" else s[5..|s| - 1]
  }

  function Resolve(a: Arguments, name: string): Option<Item> {
    if a.ctx.Some? && "ctx." <= name then
      if name[4..] in a.ctx.value then Some(a.ctx.value[name[4..]]) else None
    else if "args[" <= name then
      var i := a.parseInt(InsideBrackets(name));
      if i.Some? && 0 <= i.value < |a.args| then Some(a.args[i.value]) else None
    else if "kwargs." <= name then
      if name[7..] in a.kwargs then Some(a.kwargs[name[7..]]) else None
    else if name in a.kwargs then Some(a.kwargs[name])
    else None
  }

  function Render(item: Item): string {
    if item.Text? then item.text else ""
  }

  // ---- The loop ----

  /** `s.replace(part, value)` for a non-empty part. */
  function Replace(s: string, part: string, value: string): string
    requires part != ""
    decreases |s|
  {
    if |s| < |part| then s
    else if part <= s then value + Replace(s[|part|..], part, value)
    else [s[0]] + Replace(s[1..], part, value)
  }

  function Marked(name: string): string {
    "{" + name + "}"
  }

  /** The text after the loop has run over the placeholders; absent when `str` raised on the way. */
  function Replaced(text: string, names: seq<string>, a: Arguments): Option<string>
    decreases |names|
  {
    if names == [] then Some(text)
    else
      match Resolve(a, names[0])
      case None => Replaced(text, names[1..], a)
      case Some(item) =>
        if item.Unprintable? then None else Replaced(Replace(text, Marked(names[0]), Render(item)), names[1..], a)
  }

  predicate AllResolved(names: seq<string>, a: Arguments) {
    forall name | name in names :: Resolve(a, name).Some?
  }

  /** What the builder makes of a template whose placeholders are processed in the given order. */
  function Sequential(template: string, names: seq<string>, a: Arguments): Option<string> {
    if names == [] then Some(template)
    else
      var text := Replaced(template, names, a);
      if text.None? || !AllResolved(names, a) || !BraceFree(text.value) then None else text
  }

  method Build(template: string, a: Arguments) returns (key: Option<string>)
    ensures key == Sequential(template, Placeholders(template), a)
    ensures BraceFreeValues(Placeholders(template), a) && NeverAssembles(template, Placeholders(template), a)
            ==> key == Simultaneous(template, a)
  {
    hide NeverAssembles, BraceFreeValues, Simultaneous, Placeholders, Resolve, Replace;
    var names := Placeholders(template);
    if BraceFreeValues(names, a) && NeverAssembles(template, names, a) {
      SequentialIsSimultaneous(template, names, a);
    }
    if names == [] {
      return Some(template);
    }
    var result := template;
    var missing := false;
    for i := 0 to |names|
      invariant missing <==> !AllResolved(names[..i], a)
      invariant Replaced(template, names, a) == Replaced(result, names[i..], a)
    {
      assert names[..i + 1] == names[..i] + [names[i]];
      assert names[i..][1..] == names[i + 1..];
      var item := Resolve(a, names[i]);
      if item.None? {
        missing := true;
      } else {
        if item.value.Unprintable? {
          return None;
        }
        result := Replace(result, Marked(names[i]), Render(item.value));
      }
    }
    assert names[..|names|] == names;
    if missing || '{' in result || '}' in result {
      return None;
    }
    key := Some(result);
  }

  // ---- The simultaneous substitution ----

  datatype Token = Char(c: char) | Hole(name: string)

  function Tokens(s: string): seq<Token>
    decreases |s|
  {
    if s == "" then []
    else
      match NameAt(s)
      case Some(name) => [Hole(name)] + Tokens(s[|name| + 2..])
      case None => [Char(s[0])] + Tokens(s[1..])
  }

  function Flatten(toks: seq<Token>): string {
    if toks == [] then ""
    else (match toks[0] case Char(c) => [c] case Hole(name) => Marked(name)) + Flatten(toks[1..])
  }

  /** Every placeholder is replaced by its value at once; nothing that comes out is read again. */
  function Fill(toks: seq<Token>, a: Arguments): string {
    if toks == [] then ""
    else
      (match toks[0]
       case Char(c) => [c]
       case Hole(name) => if Resolve(a, name).Some? then Render(Resolve(a, name).value) else "") + Fill(toks[1..], a)
  }

  predicate Printable(a: Arguments, name: string) {
    Resolve(a, name).Some? && !Resolve(a, name).value.Unprintable?
  }

  /** A brace that belongs to no placeholder. */
  predicate HasStrayBrace(s: string) {
    exists tok | tok in Tokens(s) :: tok.Char? && IsBrace(tok.c)
  }

  function Simultaneous(template: string, a: Arguments): Option<string> {
    var names := Placeholders(template);
    if names == [] then Some(template)
    else if !(forall name | name in names :: Printable(a, name)) || HasStrayBrace(template) then None
    else Some(Fill(Tokens(template), a))
  }

  /** No opening brace follows another one before a closing one. */
  predicate NotNested(s: string) {
    forall i, j | 0 <= i < j < |s| && s[i] == '{' && s[j] == '{' :: '}' in s[i..j]
  }

  predicate BraceFreeValues(names: seq<string>, a: Arguments) {
    forall name | name in names && Resolve(a, name).Some? :: BraceFree(Render(Resolve(a, name).value))
  }

  /** Some stray opening brace begins the marked name, spelled out by characters that were filled in. */
  ghost predicate Assembled(toks: seq<Token>, name: string) {
    exists i :: 0 <= i < |toks| && toks[i] == Char('{') && Marked(name) <= Flatten(toks[i..])
  }

  /** No replacement meets its placeholder outside the holes, the names before it being filled in at once. */
  ghost predicate NeverAssembles(template: string, names: seq<string>, a: Arguments) {
    NoneAssembled(Tokens(template), names, a)
  }

  ghost predicate NoneAssembled(toks: seq<Token>, names: seq<string>, a: Arguments) {
    forall j | 0 <= j < |names| :: !Assembled(Filled(toks, NameSet(names[..j]), a), names[j])
  }

  predicate Named(toks: seq<Token>) {
    forall tok | tok in toks && tok.Hole? :: tok.name != "" && BraceFree(tok.name)
  }

  // ---- Tokens ----

  lemma TokensAtHole(s: string, name: string)
    requires NameAt(s) == Some(name)
    ensures Tokens(s) == [Hole(name)] + Tokens(s[|name| + 2..]) && s == Marked(name) + s[|name| + 2..]
  {}

  lemma TokensAtChar(s: string)
    requires s != "" && NameAt(s).None?
    ensures Tokens(s) == [Char(s[0])] + Tokens(s[1..]) && s == [s[0]] + s[1..]
  {}

  lemma FlattenFirst(tok: Token, rest: seq<Token>)
    ensures Flatten([tok] + rest) == (if tok.Char? then [tok.c] else Marked(tok.name)) + Flatten(rest)
  {
    assert ([tok] + rest)[1..] == rest;
  }

  lemma {:induction false} FlattenTokens(s: string)
    ensures Flatten(Tokens(s)) == s
    decreases |s|
  {
    hide Marked, BraceFree, NameAt;
    if s != "" {
      match NameAt(s)
      case Some(name) =>
        TokensAtHole(s, name);
        FlattenTokens(s[|name| + 2..]);
        FlattenFirst(Hole(name), Tokens(s[|name| + 2..]));
      case None =>
        TokensAtChar(s);
        FlattenTokens(s[1..]);
        FlattenFirst(Char(s[0]), Tokens(s[1..]));
    }
  }

  lemma {:induction false} HolesArePlaceholders(s: string, name: string)
    ensures name in Placeholders(s) <==> Hole(name) in Tokens(s)
    decreases |s|
  {
    if s != "" {
      match NameAt(s)
      case Some(n) => HolesArePlaceholders(s[|n| + 2..], name);
      case None => HolesArePlaceholders(s[1..], name);
    }
  }

  /** Only characters, none of them a brace. */
  predicate Plain(toks: seq<Token>) {
    forall tok | tok in toks :: tok.Char? && !IsBrace(tok.c)
  }

  /** No stray opening brace can become part of a placeholder when other tokens are filled in. */
  ghost predicate Tame(toks: seq<Token>) {
    toks == [] ||
    (&& Tame(toks[1..])
     && match toks[0]
        case Hole(name) => name != "" && BraceFree(name)
        case Char(c) => c == '{' ==> Plain(toks[1..]) || toks[1] == Char('}'))
  }

  lemma {:induction false} BraceFreeIsPlain(s: string)
    requires BraceFree(s)
    ensures Plain(Tokens(s))
    decreases |s|
  {
    if s != "" {
      assert s[0] in s;
      assert NameAt(s).None?;
      BraceFreeIsPlain(s[1..]);
    }
  }

  lemma NotNestedSuffix(s: string, n: nat)
    requires NotNested(s) && n <= |s|
    ensures NotNested(s[n..])
  {
    forall i, j | 0 <= i < j < |s[n..]| && s[n..][i] == '{' && s[n..][j] == '{' ensures '}' in s[n..][i..j] {
      assert s[i + n] == '{' && s[j + n] == '{';
      assert s[n..][i..j] == s[i + n..j + n];
    }
  }

  /** After a stray opening brace of a template that is not nested comes a closing one, or no brace at all. */
  lemma AfterStrayBrace(s: string)
    requires NotNested(s) && s != "" && s[0] == '{' && NameAt(s).None?
    ensures BraceFree(s[1..]) || (|s| > 1 && s[1] == '}')
  {
    var n := Span(s[1..]);
    if n == |s[1..]| {
      assert s[1..][..n] == s[1..];
    } else {
      assert s[0..n + 1] == "{" + s[1..][..n];
      assert '}' !in s[0..n + 1];
    }
  }

  lemma {:induction false} NotNestedIsTame(s: string)
    requires NotNested(s)
    ensures Tame(Tokens(s))
    decreases |s|
  {
    if s != "" {
      match NameAt(s)
      case Some(name) =>
        NotNestedSuffix(s, |name| + 2);
        NotNestedIsTame(s[|name| + 2..]);
      case None =>
        NotNestedSuffix(s, 1);
        NotNestedIsTame(s[1..]);
        if s[0] == '{' {
          AfterStrayBrace(s);
          if BraceFree(s[1..]) { BraceFreeIsPlain(s[1..]); } else { assert Tokens(s[1..])[0] == Char('}'); }
        }
    }
  }

  // ---- One replacement, on tokens ----

  function Chars(s: string): (toks: seq<Token>)
    ensures |toks| == |s| && forall i | 0 <= i < |s| :: toks[i] == Char(s[i])
  {
    seq(|s|, i requires 0 <= i < |s| => Char(s[i]))
  }

  /** Holes with a name in `done` are filled in. */
  function Filled(toks: seq<Token>, done: set<string>, a: Arguments): seq<Token> {
    if toks == [] then []
    else
      (if toks[0].Hole? && toks[0].name in done && Resolve(a, toks[0].name).Some?
       then Chars(Render(Resolve(a, toks[0].name).value)) else [toks[0]]) + Filled(toks[1..], done, a)
  }

  lemma {:induction false} FlattenConcat(a: seq<Token>, b: seq<Token>)
    ensures Flatten(a + b) == Flatten(a) + Flatten(b)
  {
    if a == [] {
      assert a + b == b;
    } else {
      assert (a + b)[1..] == a[1..] + b;
      FlattenConcat(a[1..], b);
    }
  }

  lemma {:induction false} FlattenChars(s: string)
    ensures Flatten(Chars(s)) == s
  {
    if s != "" {
      assert Chars(s)[1..] == Chars(s[1..]);
      FlattenChars(s[1..]);
    }
  }

  /** Text without an opening brace is passed over. */
  lemma {:induction false} ReplaceSkips(plain: string, rest: string, name: string, value: string)
    requires '{' !in plain
    ensures Replace(plain + rest, Marked(name), value) == plain + Replace(rest, Marked(name), value)
  {
    if plain == "" {
      assert plain + rest == rest;
    } else {
      var s := plain + rest;
      assert s[0] == plain[0] && plain[0] in plain;
      assert s[1..] == plain[1..] + rest;
      ReplaceSkips(plain[1..], rest, name, value);
      if |s| >= |Marked(name)| { assert Marked(name)[0] == '{'; }
      else { ShortIsUnchanged(rest, name, value); }
    }
  }

  lemma ShortIsUnchanged(s: string, name: string, value: string)
    requires |s| < |Marked(name)|
    ensures Replace(s, Marked(name), value) == s
  {}

  lemma MarkedPrefix(n: string, name: string, rest: string)
    requires BraceFree(n) && BraceFree(name) && n != name
    ensures !(Marked(name) <= Marked(n) + rest)
  {
    var s, part := Marked(n) + rest, Marked(name);
    assert forall i | 0 <= i < |n| :: s[i + 1] == n[i] && n[i] in n;
    assert forall i | 0 <= i < |name| :: part[i + 1] == name[i] && name[i] in name;
    assert s[|n| + 1] == '}' && part[|name| + 1] == '}';
    // Where the two differ.
    if |n| < |name| {
      assert part[|n| + 1] != s[|n| + 1];
    } else if |n| > |name| {
      assert part[|name| + 1] != s[|name| + 1];
    } else {
      var i :| 0 <= i < |n| && n[i] != name[i];
      assert part[i + 1] != s[i + 1];
    }
  }

  /** A stray opening brace does not begin a placeholder. */
  lemma StrayIsNotMarked(rest: seq<Token>, name: string)
    requires Plain(rest) || (rest != [] && rest[0] == Char('}'))
    requires name != "" && BraceFree(name)
    ensures !(Marked(name) <= "{" + Flatten(rest))
  {
    var s, part := "{" + Flatten(rest), Marked(name);
    assert name[0] in name && part[1] == name[0] && part[|name| + 1] == '}';
    if Plain(rest) {
      PlainFlattens(rest);
      if |part| <= |s| { assert s[|name| + 1] in Flatten(rest); }
    } else {
      assert Flatten(rest)[0] == '}' && s[1] == '}';
    }
  }

  lemma {:induction false} PlainFlattens(toks: seq<Token>)
    requires Plain(toks)
    ensures BraceFree(Flatten(toks))
  {
    if toks != [] { PlainFlattens(toks[1..]); }
  }

  lemma ReplaceAtChar(c: char, rest: string, name: string, value: string)
    requires c == '{' ==> !(Marked(name) <= [c] + rest)
    ensures Replace([c] + rest, Marked(name), value) == [c] + Replace(rest, Marked(name), value)
  {
    var s := [c] + rest;
    assert s[1..] == rest && Marked(name)[0] == '{';
    if |s| < |Marked(name)| { ShortIsUnchanged(rest, name, value); }
  }

  lemma ReplaceAtHole(n: string, rest: string, name: string, value: string)
    requires name != "" && BraceFree(name) && BraceFree(n)
    ensures Replace(Marked(n) + rest, Marked(name), value)
            == (if n == name then value else Marked(n)) + Replace(rest, Marked(name), value)
  {
    var s, part := Marked(n) + rest, Marked(name);
    if n == name {
      assert s[|part|..] == rest;
    } else {
      MarkedPrefix(n, name, rest);
      assert s[1..] == (n + "}") + rest && Marked(n) == ['{'] + (n + "}");
      assert '{' !in n + "}";
      ReplaceSkips(n + "}", rest, name, value);
      if |s| < |part| { ShortIsUnchanged(s[1..], name, value); }
      assert Replace(s, part, value) == ['{'] + Replace(s[1..], part, value);
    }
  }

  // ---- The loop, on tokens ----

  lemma {:induction false} FilledIsTame(toks: seq<Token>, done: set<string>, a: Arguments)
    requires Tame(toks)
    requires forall name | name in done && Resolve(a, name).Some? :: BraceFree(Render(Resolve(a, name).value))
    ensures Tame(Filled(toks, done, a))
    ensures Plain(toks) ==> Filled(toks, done, a) == toks
  {
    if toks != [] {
      FilledIsTame(toks[1..], done, a);
      var rest := Filled(toks[1..], done, a);
      match toks[0]
      case Char(c) =>
        assert Filled(toks, done, a)[1..] == rest;
        if c == '{' && !Plain(toks[1..]) { assert rest[0] == Char('}'); }
      case Hole(name) =>
        if name in done && Resolve(a, name).Some? {
          CharsAreTame(Render(Resolve(a, name).value), rest);
        } else {
          assert Filled(toks, done, a)[1..] == rest;
        }
    }
  }

  lemma {:induction false} CharsAreTame(s: string, rest: seq<Token>)
    requires BraceFree(s) && Tame(rest)
    ensures Tame(Chars(s) + rest)
  {
    if s == "" {
      assert Chars(s) + rest == rest;
    } else {
      CharsAreTame(s[1..], rest);
      assert s[0] in s;
      assert (Chars(s) + rest)[1..] == Chars(s[1..]) + rest;
    }
  }

  /** A tame template never assembles a placeholder. */
  lemma {:induction false} TameIsNotAssembled(toks: seq<Token>, name: string)
    requires Tame(toks) && name != "" && BraceFree(name)
    ensures !Assembled(toks, name)
  {
    if toks != [] {
      TameIsNotAssembled(toks[1..], name);
      if toks[0] == Char('{') { StrayIsNotMarked(toks[1..], name); }
      AssembledInTail(toks, name);
    }
  }

  lemma AssembledInTail(toks: seq<Token>, name: string)
    requires toks != []
    ensures Assembled(toks, name)
            <==> (toks[0] == Char('{') && Marked(name) <= Flatten(toks)) || Assembled(toks[1..], name)
  {}

  /** Replacing one marked name in the text fills in its holes, and only them, unless it was assembled elsewhere. */
  lemma {:induction false} ReplaceFills(toks: seq<Token>, name: string, a: Arguments)
    requires Named(toks) && name != "" && BraceFree(name) && Resolve(a, name).Some?
    requires !Assembled(toks, name)
    ensures Replace(Flatten(toks), Marked(name), Render(Resolve(a, name).value)) == Flatten(Filled(toks, {name}, a))
  {
    var value := Render(Resolve(a, name).value);
    if toks != [] {
      var rest := toks[1..];
      AssembledInTail(toks, name);
      ReplaceFills(rest, name, a);
      match toks[0]
      case Char(c) =>
        ReplaceAtChar(c, Flatten(rest), name, value);
        assert Filled(toks, {name}, a)[1..] == Filled(rest, {name}, a);
      case Hole(n) =>
        assert toks[0] in toks;
        ReplaceAtHole(n, Flatten(rest), name, value);
        FlattenConcat(if n == name then Chars(value) else [Hole(n)], Filled(rest, {name}, a));
        FlattenChars(value);
        assert [Hole(n)][1..] == [] && Flatten([Hole(n)]) == Marked(n) + "";
    }
  }

  lemma {:induction false} FilledConcat(s: seq<Token>, t: seq<Token>, done: set<string>, a: Arguments)
    ensures Filled(s + t, done, a) == Filled(s, done, a) + Filled(t, done, a)
  {
    if s == [] {
      assert s + t == t;
    } else {
      assert (s + t)[1..] == s[1..] + t;
      FilledConcat(s[1..], t, done, a);
    }
  }

  lemma {:induction false} CharsHaveNoHoles(s: string, done: set<string>, a: Arguments)
    ensures Filled(Chars(s), done, a) == Chars(s)
  {
    if s != "" {
      assert Chars(s)[1..] == Chars(s[1..]);
      CharsHaveNoHoles(s[1..], done, a);
    }
  }

  /** Filling in twice is filling in all at once. */
  lemma {:induction false} FilledTwice(toks: seq<Token>, done: set<string>, more: set<string>, a: Arguments)
    ensures Filled(Filled(toks, done, a), more, a) == Filled(toks, done + more, a)
  {
    if toks != [] {
      var tok := toks[0];
      var head := if tok.Hole? && tok.name in done && Resolve(a, tok.name).Some?
                  then Chars(Render(Resolve(a, tok.name).value)) else [tok];
      FilledConcat(head, Filled(toks[1..], done, a), more, a);
      FilledTwice(toks[1..], done, more, a);
      if tok.Hole? && tok.name in done && Resolve(a, tok.name).Some? {
        CharsHaveNoHoles(Render(Resolve(a, tok.name).value), more, a);
      } else {
        assert [tok][1..] == [];
      }
    }
  }

  function NameSet(names: seq<string>): set<string> {
    set name | name in names
  }

  predicate AllPrintable(names: seq<string>, a: Arguments) {
    forall name | name in names :: Printable(a, name)
  }

  lemma {:induction false} UnprintableGivesNone(text: string, names: seq<string>, a: Arguments)
    requires AllResolved(names, a) && !AllPrintable(names, a)
    ensures Replaced(text, names, a) == None
    decreases |names|
  {
    if Printable(a, names[0]) {
      UnprintableGivesNone(Replace(text, Marked(names[0]), Render(Resolve(a, names[0]).value)), names[1..], a);
    }
  }

  lemma FilledIsNamed(toks: seq<Token>, done: set<string>, a: Arguments)
    requires Named(toks)
    ensures Named(Filled(toks, done, a))
  {}

  /** After the first name, the condition is the one for the remaining names on what it filled in. */
  lemma NoneAssembledInRest(toks: seq<Token>, names: seq<string>, a: Arguments)
    requires names != []
    ensures NoneAssembled(toks, names, a)
            <==> !Assembled(toks, names[0]) && NoneAssembled(Filled(toks, {names[0]}, a), names[1..], a)
  {
    var filled, rest := Filled(toks, {names[0]}, a), names[1..];
    assert NameSet(names[..0]) == {};
    FilledWithNothing(toks, a);
    forall j | 0 <= j < |rest|
      ensures Filled(filled, NameSet(rest[..j]), a) == Filled(toks, NameSet(names[..j + 1]), a)
              && rest[j] == names[j + 1]
    {
      assert names[..j + 1] == [names[0]] + rest[..j];
      assert NameSet(names[..j + 1]) == {names[0]} + NameSet(rest[..j]);
      FilledTwice(toks, {names[0]}, NameSet(rest[..j]), a);
    }
    if NoneAssembled(toks, names, a) {
      assert !Assembled(Filled(toks, NameSet(names[..0]), a), names[0]);
      forall j | 0 <= j < |rest| ensures !Assembled(Filled(filled, NameSet(rest[..j]), a), rest[j]) {
        assert !Assembled(Filled(toks, NameSet(names[..j + 1]), a), names[j + 1]);
      }
    }
    if !Assembled(toks, names[0]) && NoneAssembled(filled, rest, a) {
      forall j | 0 <= j < |names| ensures !Assembled(Filled(toks, NameSet(names[..j]), a), names[j]) {
        if j > 0 { assert !Assembled(Filled(filled, NameSet(rest[..j - 1]), a), rest[j - 1]); }
      }
    }
  }

  /** The loop fills in the holes it was given, whatever their order and however often they come. */
  lemma {:induction false} LoopFills(toks: seq<Token>, names: seq<string>, a: Arguments)
    requires Named(toks) && AllPrintable(names, a) && NoneAssembled(toks, names, a)
    requires forall name | name in names :: name != "" && BraceFree(name)
    ensures Replaced(Flatten(toks), names, a) == Some(Flatten(Filled(toks, NameSet(names), a)))
    decreases |names|
  {
    if names == [] {
      assert NameSet(names) == {};
      FilledWithNothing(toks, a);
    } else {
      var name, rest := names[0], names[1..];
      assert NameSet(names) == {name} + NameSet(rest);
      assert forall n | n in rest :: n in names;
      assert Printable(a, name);
      NoneAssembledInRest(toks, names, a);
      ReplaceFills(toks, name, a);
      FilledIsNamed(toks, {name}, a);
      LoopFills(Filled(toks, {name}, a), rest, a);
      FilledTwice(toks, {name}, NameSet(rest), a);
    }
  }

  lemma {:induction false} FilledWithNothing(toks: seq<Token>, a: Arguments)
    ensures Filled(toks, {}, a) == toks
  {
    if toks != [] { FilledWithNothing(toks[1..], a); }
  }

  // ---- When a placeholder is assembled ----

  /** Stray braces, opening ones if not said otherwise. */
  function Strays(toks: seq<Token>, brace: char := '{'): nat {
    if toks == [] then 0 else (if toks[0] == Char(brace) then 1 else 0) + Strays(toks[1..], brace)
  }

  function Count(s: string, brace: char := '{'): nat {
    if s == "" then 0 else (if s[0] == brace then 1 else 0) + Count(s[1..], brace)
  }

  ghost predicate NoHoles(toks: seq<Token>) {
    forall tok | tok in toks :: tok.Char?
  }

  lemma {:induction false} StraysConcat(s: seq<Token>, t: seq<Token>)
    ensures Strays(s + t) == Strays(s) + Strays(t)
  {
    if s == [] {
      assert s + t == t;
    } else {
      assert (s + t)[1..] == s[1..] + t;
      StraysConcat(s[1..], t);
    }
  }

  lemma {:induction false} BraceFreeStrays(s: string)
    requires BraceFree(s)
    ensures Strays(Chars(s)) == 0
  {
    if s != "" {
      assert s[0] in s && Chars(s)[1..] == Chars(s[1..]);
      BraceFreeStrays(s[1..]);
    }
  }

  lemma {:induction false} NoHolesOpens(toks: seq<Token>)
    requires NoHoles(toks)
    ensures Count(Flatten(toks)) == Strays(toks)
  {
    if toks != [] {
      assert toks[0] in toks;
      NoHolesOpens(toks[1..]);
      assert Flatten(toks)[1..] == Flatten(toks[1..]);
    }
  }

  /** A brace-free text and a closing brace are spelled by characters only, none an opening brace. */
  lemma {:induction false} SpelledByChars(toks: seq<Token>, s: string)
    requires BraceFree(s) && |s| < |Flatten(toks)|
    requires forall i | 0 <= i < |s| :: Flatten(toks)[i] == s[i]
    requires Flatten(toks)[|s|] == '}'
    ensures |s| < |toks|
    ensures Flatten(toks) == s + ("}" + Flatten(toks[|s| + 1..]))
    ensures Strays(toks) == Strays(toks[|s| + 1..])
  {
    hide Flatten, Strays;
    assert s != "" ==> s[0] in s && Flatten(toks)[0] == s[0];
    CharAtHead(toks);
    var text, rest := Flatten(toks), toks[1..];
    if s == "" {
      assert text == s + ("}" + Flatten(rest));
    } else {
      forall i | 0 <= i < |s[1..]| ensures Flatten(rest)[i] == s[1..][i] { assert text[i + 1] == s[i + 1]; }
      assert text[|s|] == Flatten(rest)[|s| - 1];
      SpelledByChars(rest, s[1..]);
      assert rest[|s|..] == toks[|s| + 1..];
      assert [s[0]] + (s[1..] + ("}" + Flatten(toks[|s| + 1..]))) == s + ("}" + Flatten(toks[|s| + 1..]));
    }
  }

  lemma OpeningAtHead(toks: seq<Token>)
    requires toks != [] && toks[0] == Char('{')
    ensures Flatten(toks) == "{" + Flatten(toks[1..]) && Strays(toks) == 1 + Strays(toks[1..])
  {}

  lemma CharAtHead(toks: seq<Token>)
    requires Flatten(toks) != "" && Flatten(toks)[0] != '{'
    ensures toks != [] && Flatten(toks) == [Flatten(toks)[0]] + Flatten(toks[1..])
    ensures Strays(toks) == Strays(toks[1..])
  {}

  /** The characters of an assembled placeholder after its opening brace. */
  lemma AssembledInside(toks: seq<Token>, name: string)
    requires toks != [] && toks[0] == Char('{') && Marked(name) <= Flatten(toks)
    ensures |name| < |Flatten(toks[1..])| && Flatten(toks[1..])[|name|] == '}'
    ensures forall i | 0 <= i < |name| :: Flatten(toks[1..])[i] == name[i]
  {
    OpeningAtHead(toks);
    hide Flatten, Strays;
    var text, part := Flatten(toks), Marked(name);
    assert text[|name| + 1] == part[|name| + 1] == '}';
    forall i | 0 <= i < |name| ensures Flatten(toks[1..])[i] == name[i] {
      assert text[i + 1] == part[i + 1];
    }
  }

  lemma ReplaceHead(rest: string, name: string, value: string)
    ensures Replace("{" + (name + ("}" + rest)), Marked(name), value) == value + Replace(rest, Marked(name), value)
  {
    assert "{" + (name + ("}" + rest)) == Marked(name) + rest;
    assert (Marked(name) + rest)[|Marked(name)|..] == rest;
  }

  /** An assembled placeholder at the head: its tokens, with one stray opening brace, and the text after it. */
  lemma {:induction false} AssembledHead(toks: seq<Token>, name: string, value: string) returns (rest: seq<Token>)
    requires BraceFree(name) && toks != [] && toks[0] == Char('{') && Marked(name) <= Flatten(toks)
    ensures |rest| < |toks| && rest == toks[|toks| - |rest|..]
    ensures Strays(toks) == 1 + Strays(rest)
    ensures Replace(Flatten(toks), Marked(name), value) == value + Replace(Flatten(rest), Marked(name), value)
  {
    OpeningAtHead(toks);
    AssembledInside(toks, name);
    hide Flatten, Strays, Replace, BraceFree;
    SpelledByChars(toks[1..], name);
    rest := toks[1..][|name| + 1..];
    assert rest == toks[|name| + 2..];
    ReplaceHead(Flatten(rest), name, value);
  }

  /** One replacement, on tokens, assembled placeholders included: those swallow stray braces. */
  lemma {:induction false} ReplaceCollapses(toks: seq<Token>, name: string, value: string) returns (after: seq<Token>)
    requires Named(toks) && name != "" && BraceFree(name) && BraceFree(value)
    ensures Flatten(after) == Replace(Flatten(toks), Marked(name), value)
    ensures Strays(after) <= Strays(toks)
    ensures Assembled(toks, name) ==> Strays(after) < Strays(toks)
    ensures forall tok | tok in after && tok.Hole? :: tok in toks && tok.name != name
    decreases |toks|
  {
    if toks == [] { return []; }
    AssembledInTail(toks, name);
    if toks[0] == Char('{') && Marked(name) <= Flatten(toks) {
      var rest := AssembledHead(toks, name, value);
      after := ReplaceCollapses(rest, name, value);
      StraysConcat(Chars(value), after);
      BraceFreeStrays(value);
      FlattenConcat(Chars(value), after);
      FlattenChars(value);
      after := Chars(value) + after;
    } else {
      after := ReplaceCollapses(toks[1..], name, value);
      after := ReplaceAtToken(toks, after, name, value);
    }
  }

  /** One token that is not the beginning of an assembled placeholder. */
  lemma {:induction false} ReplaceAtToken(
    toks: seq<Token>, rest: seq<Token>, name: string, value: string) returns (after: seq<Token>)
    requires Named(toks) && toks != [] && name != "" && BraceFree(name) && BraceFree(value)
    requires toks[0] == Char('{') ==> !(Marked(name) <= Flatten(toks))
    requires Flatten(rest) == Replace(Flatten(toks[1..]), Marked(name), value)
    ensures Flatten(after) == Replace(Flatten(toks), Marked(name), value)
    ensures Strays(after) == Strays(rest) + (if toks[0] == Char('{') then 1 else 0)
    ensures forall tok | tok in after && tok.Hole? :: tok in rest || (tok == toks[0] && tok.name != name)
  {
    assert toks[0] in toks;
    match toks[0]
    case Char(c) =>
      ReplaceAtChar(c, Flatten(toks[1..]), name, value);
      after := [toks[0]] + rest;
    case Hole(n) =>
      var head := if n == name then Chars(value) else [Hole(n)];
      ReplaceAtHole(n, Flatten(toks[1..]), name, value);
      FlattenConcat(head, rest);
      FlattenChars(value);
      BraceFreeStrays(value);
      StraysConcat(head, rest);
      assert [Hole(n)][1..] == [] && Flatten([Hole(n)]) == Marked(n) + "";
      after := head + rest;
  }

  /** The rest of the loop swallows more stray braces or none; it brings none back. */
  lemma {:induction false} LoopCollapses(toks: seq<Token>, names: seq<string>, a: Arguments) returns (after: seq<Token>)
    requires Named(toks) && AllPrintable(names, a) && BraceFreeValues(names, a)
    requires forall name | name in names :: name != "" && BraceFree(name)
    ensures Replaced(Flatten(toks), names, a) == Some(Flatten(after))
    ensures Strays(after) <= Strays(toks)
    ensures names != [] && Assembled(toks, names[0]) ==> Strays(after) < Strays(toks)
    ensures forall tok | tok in after && tok.Hole? :: tok in toks && tok.name !in names
    decreases |names|
  {
    if names == [] { return toks; }
    assert Printable(a, names[0]);
    assert forall n | n in names[1..] :: n in names;
    var collapsed := ReplaceCollapses(toks, names[0], Render(Resolve(a, names[0]).value));
    after := LoopCollapses(collapsed, names[1..], a);
  }

  lemma {:induction false} FilledStrays(toks: seq<Token>, done: set<string>, a: Arguments)
    requires forall name | name in done && Resolve(a, name).Some? :: BraceFree(Render(Resolve(a, name).value))
    ensures Strays(Filled(toks, done, a)) == Strays(toks)
  {
    if toks != [] {
      FilledStrays(toks[1..], done, a);
      var tok := toks[0];
      var head := if tok.Hole? && tok.name in done && Resolve(a, tok.name).Some?
                  then Chars(Render(Resolve(a, tok.name).value)) else [tok];
      StraysConcat(head, Filled(toks[1..], done, a));
      if head != [tok] { BraceFreeStrays(Render(Resolve(a, tok.name).value)); }
      else { assert [tok][1..] == []; }
    }
  }

  /** Once a placeholder was assembled, stray braces are missing at the end. */
  lemma {:induction false} AssemblySwallows(
    toks: seq<Token>, names: seq<string>, a: Arguments) returns (after: seq<Token>)
    requires Named(toks) && AllPrintable(names, a) && BraceFreeValues(names, a) && !NoneAssembled(toks, names, a)
    requires forall name | name in names :: name != "" && BraceFree(name)
    ensures Replaced(Flatten(toks), names, a) == Some(Flatten(after))
    ensures Strays(after) < Strays(toks)
    ensures forall tok | tok in after && tok.Hole? :: tok in toks && tok.name !in names
    decreases |names|
  {
    if Assembled(toks, names[0]) {
      after := LoopCollapses(toks, names, a);
    } else {
      var name, rest := names[0], names[1..];
      assert Printable(a, name);
      assert forall n | n in rest :: n in names;
      NoneAssembledInRest(toks, names, a);
      ReplaceFills(toks, name, a);
      FilledIsNamed(toks, {name}, a);
      FilledStrays(toks, {name}, a);
      FilledHoles(toks, name, a);
      after := AssemblySwallows(Filled(toks, {name}, a), rest, a);
    }
  }

  lemma {:induction false} FilledHoles(toks: seq<Token>, name: string, a: Arguments)
    requires Resolve(a, name).Some?
    ensures forall tok | tok in Filled(toks, {name}, a) && tok.Hole? :: tok in toks && tok.name != name
  {
    if toks != [] { FilledHoles(toks[1..], name, a); }
  }

  // ---- The theorem ----

  /** When all holes are filled in, what is left is the simultaneous substitution. */
  lemma {:induction false} AllFilled(toks: seq<Token>, done: set<string>, a: Arguments)
    requires forall tok | tok in toks && tok.Hole? ::
               tok.name in done && Resolve(a, tok.name).Some? && BraceFree(Render(Resolve(a, tok.name).value))
    ensures Flatten(Filled(toks, done, a)) == Fill(toks, a)
    ensures BraceFree(Fill(toks, a)) <==> forall tok | tok in toks :: tok.Hole? || !IsBrace(tok.c)
  {
    if toks != [] {
      var rest := Filled(toks[1..], done, a);
      AllFilled(toks[1..], done, a);
      match toks[0]
      case Char(c) =>
        assert Filled(toks, done, a)[1..] == rest;
        assert toks[0] in toks && c in Fill(toks, a);
      case Hole(name) =>
        assert toks[0] in toks;
        FlattenConcat(Chars(Render(Resolve(a, name).value)), rest);
        FlattenChars(Render(Resolve(a, name).value));
    }
  }

  lemma {:induction false} PlaceholdersAreNames(s: string)
    ensures forall name | name in Placeholders(s) :: name != "" && BraceFree(name)
    decreases |s|
  {
    if s != "" {
      match NameAt(s)
      case Some(n) => PlaceholdersAreNames(s[|n| + 2..]);
      case None => PlaceholdersAreNames(s[1..]);
    }
  }

  /** The placeholders of the template, in some order, each at least once. */
  ghost predicate Covers(names: seq<string>, template: string) {
    forall name :: name in names <==> name in Placeholders(template)
  }

  lemma HolesAreFilled(template: string, names: seq<string>, a: Arguments)
    requires Covers(names, template) && AllPrintable(names, a) && BraceFreeValues(names, a)
    ensures Named(Tokens(template))
    ensures forall name | name in names :: name != "" && BraceFree(name)
    ensures forall tok | tok in Tokens(template) && tok.Hole? ::
              tok.name in names && Resolve(a, tok.name).Some? && BraceFree(Render(Resolve(a, tok.name).value))
  {
    PlaceholdersAreNames(template);
    forall tok | tok in Tokens(template) && tok.Hole?
      ensures tok.name in names && Printable(a, tok.name) && BraceFree(Render(Resolve(a, tok.name).value))
    {
      HolesArePlaceholders(template, tok.name);
    }
  }

  /**
   With values that contain no brace, in whatever order and however often the loop takes the
   placeholders: its text is the simultaneous substitution exactly when no replacement meets an
   assembled placeholder.
   */
  lemma ReplacedIsFilledIff(template: string, names: seq<string>, a: Arguments)
    requires Covers(names, template) && AllPrintable(names, a) && BraceFreeValues(names, a)
    ensures Replaced(template, names, a) == Some(Fill(Tokens(template), a)) <==> NeverAssembles(template, names, a)
  {
    var toks := Tokens(template);
    FlattenTokens(template);
    HolesAreFilled(template, names, a);
    AllFilled(toks, NameSet(names), a);
    if NoneAssembled(toks, names, a) {
      LoopFills(toks, names, a);
    } else {
      var after := AssemblySwallows(toks, names, a);
      NoHolesOpens(after);
      FilledStrays(toks, NameSet(names), a);
      NothingLeft(toks, NameSet(names), a);
      NoHolesOpens(Filled(toks, NameSet(names), a));
    }
  }

  lemma {:induction false} NothingLeft(toks: seq<Token>, done: set<string>, a: Arguments)
    requires forall tok | tok in toks && tok.Hole? :: tok.name in done && Resolve(a, tok.name).Some?
    ensures NoHoles(Filled(toks, done, a))
  {
    if toks != [] {
      assert toks[0] in toks;
      NothingLeft(toks[1..], done, a);
    }
  }

  /**
   Then the builder gives the simultaneous substitution; a stray brace, an unresolved placeholder
   or one whose value cannot be printed gives no key.
   */
  lemma SequentialIsSimultaneous(template: string, names: seq<string>, a: Arguments)
    requires Covers(names, template) && BraceFreeValues(names, a) && NeverAssembles(template, names, a)
    ensures Sequential(template, names, a) == Simultaneous(template, a)
  {
    var holes := Placeholders(template);
    assert holes != [] ==> holes[0] in names;
    if names != [] {
      assert names[0] in holes;
      if AllPrintable(names, a) {
        ReplacedIsFilledIff(template, names, a);
        HolesAreFilled(template, names, a);
        AllFilled(Tokens(template), NameSet(names), a);
      } else if AllResolved(names, a) {
        UnprintableGivesNone(template, names, a);
      }
    }
  }

  /** A template without nested opening braces never assembles a placeholder, whatever the values. */
  lemma NotNestedNeverAssembles(template: string, names: seq<string>, a: Arguments)
    requires NotNested(template) && Covers(names, template) && BraceFreeValues(names, a)
    ensures NeverAssembles(template, names, a)
  {
    NotNestedIsTame(template);
    PlaceholdersAreNames(template);
    forall j | 0 <= j < |names| ensures !Assembled(Filled(Tokens(template), NameSet(names[..j]), a), names[j]) {
      assert names[j] in names;
      FilledIsTame(Tokens(template), NameSet(names[..j]), a);
      TameIsNotAssembled(Filled(Tokens(template), NameSet(names[..j]), a), names[j]);
    }
  }

  lemma {:induction false} FilledFromPlain(toks: seq<Token>, done: set<string>, a: Arguments)
    requires forall tok | tok in toks && tok.Char? :: !IsBrace(tok.c)
    requires forall name | name in done && Resolve(a, name).Some? :: BraceFree(Render(Resolve(a, name).value))
    ensures forall tok | tok in Filled(toks, done, a) && tok.Char? :: !IsBrace(tok.c)
  {
    if toks != [] {
      assert toks[0] in toks;
      FilledFromPlain(toks[1..], done, a);
    }
  }

  /** Nor does a template whose only braces are its placeholders. */
  lemma NoStrayNeverAssembles(template: string, names: seq<string>, a: Arguments)
    requires !HasStrayBrace(template) && Covers(names, template) && BraceFreeValues(names, a)
    ensures NeverAssembles(template, names, a)
  {
    forall j | 0 <= j < |names| ensures !Assembled(Filled(Tokens(template), NameSet(names[..j]), a), names[j]) {
      FilledFromPlain(Tokens(template), NameSet(names[..j]), a);
    }
  }

  /**
   The plain case: only placeholders have braces, all resolve to brace-free values, and the key is
   the substitution.
   */
  lemma PlainTemplateIsSubstituted(template: string, names: seq<string>, a: Arguments)
    requires !HasStrayBrace(template) && Covers(names, template) && AllPrintable(names, a) && BraceFreeValues(names, a)
    ensures Sequential(template, names, a) == Some(Fill(Tokens(template), a))
  {
    NoStrayNeverAssembles(template, names, a);
    SequentialIsSimultaneous(template, names, a);
    HolesAreFilled(template, names, a);
    assert Placeholders(template) != [] ==> Placeholders(template)[0] in names;
    if Placeholders(template) == [] { WithoutHoles(template, a); }
  }

  lemma {:induction false} WithoutHoles(template: string, a: Arguments)
    requires Placeholders(template) == []
    ensures Fill(Tokens(template), a) == template
    decreases |template|
  {
    if template != "" { WithoutHoles(template[1..], a); }
  }

  /** A placeholder inside stray braces, and a second placeholder: {{x}}{y}. */
  function Nested(x: string, y: string): string {
    ['{'] + (Marked(x) + (['}'] + (Marked(y) + "")))
  }

  lemma HoleFirst(name: string, rest: string)
    requires name != "" && BraceFree(name)
    ensures NameAt(Marked(name) + rest) == Some(name)
    ensures Placeholders(Marked(name) + rest) == [name] + Placeholders(rest)
    ensures Tokens(Marked(name) + rest) == [Hole(name)] + Tokens(rest)
  {
    var s := Marked(name) + rest;
    assert s[1..] == name + ("}" + rest);
    SpanOf(name, "}" + rest);
    assert s[1..][..|name|] == name && s[|name| + 2..] == rest;
  }

  lemma {:induction false} SpanOf(name: string, rest: string)
    requires BraceFree(name) && rest != "" && IsBrace(rest[0])
    ensures Span(name + rest) == |name|
  {
    if name == "" {
      assert name + rest == rest;
    } else {
      assert name[0] in name && (name + rest)[1..] == name[1..] + rest;
      SpanOf(name[1..], rest);
    }
  }

  lemma CharFirst(c: char, rest: string)
    requires NameAt([c] + rest).None?
    ensures Placeholders([c] + rest) == Placeholders(rest)
    ensures Tokens([c] + rest) == [Char(c)] + Tokens(rest)
  {}

  lemma NestedPlaceholders(x: string, y: string)
    requires x != "" && BraceFree(x) && y != "" && BraceFree(y)
    ensures Placeholders(Nested(x, y)) == [x, y]
    ensures HasStrayBrace(Nested(x, y)) && !NotNested(Nested(x, y))
  {
    hide Placeholders, Tokens, NameAt;
    var inner := Marked(x) + (['}'] + (Marked(y) + ""));
    BracesFirst(inner);
    HoleFirst(x, ['}'] + (Marked(y) + ""));
    ClosingFirst(Marked(y) + "");
    HoleFirst(y, "");
    assert Tokens(Nested(x, y))[0] == Char('{');
    NothingFirst();
  }

  lemma ClosingFirst(rest: string)
    ensures Placeholders(['}'] + rest) == Placeholders(rest)
  {
    CharFirst('}', rest);
  }

  lemma NothingFirst()
    ensures Placeholders("") == []
  {}

  /** Of two opening braces the first is stray. */
  lemma {:induction false} BracesFirst(rest: string)
    requires rest != "" && rest[0] == '{'
    ensures Placeholders(['{'] + rest) == Placeholders(rest)
    ensures Tokens(['{'] + rest) == [Char('{')] + Tokens(rest)
    ensures !NotNested(['{'] + rest)
  {
    var s := ['{'] + rest;
    assert s[1..] == rest && s[0..1] == ['{'] && s[1] == '{';
    CharFirst('{', rest);
  }

  /** The value y of x turns the outer braces into a second placeholder y. */
  lemma NestedReplacements(x: string, y: string, v: string)
    requires x != "" && BraceFree(x) && y != "" && BraceFree(y) && x != y
    ensures Replace(Nested(x, y), Marked(x), y) == Marked(y) + (Marked(y) + "")
    ensures Replace(Marked(y) + (Marked(y) + ""), Marked(y), v) == v + (v + "")
  {
    var s := Nested(x, y);
    var inner := Marked(x) + (['}'] + (Marked(y) + ""));
    assert s[1..] == inner && inner[0] == '{' && x[0] in x && Marked(x)[1] == x[0];
    assert Replace(s, Marked(x), y) == ['{'] + Replace(inner, Marked(x), y);
    ReplaceAtHole(x, ['}'] + (Marked(y) + ""), x, y);
    ReplaceSkips(['}'], Marked(y) + "", x, y);
    ReplaceAtHole(y, "", x, y);
    assert ['{'] + (y + (['}'] + (Marked(y) + ""))) == Marked(y) + (Marked(y) + "");
    ReplaceAtHole(y, Marked(y) + "", y, v);
    ReplaceAtHole(y, "", y, v);
  }

  /**
   Nested opening braces are the exception.  Whenever the value of x is the name y, the template
   {{x}}{y} gives a key, although it has stray braces and all values are brace-free: the value of
   one placeholder completes another one.
   */
  lemma NestedBracesCascade(x: string, y: string, v: string, a: Arguments)
    requires x != "" && BraceFree(x) && y != "" && BraceFree(y) && x != y && BraceFree(v)
    requires Resolve(a, x) == Some(Text(y)) && Resolve(a, y) == Some(Text(v))
    ensures HasStrayBrace(Nested(x, y)) && BraceFreeValues(Placeholders(Nested(x, y)), a)
    ensures Sequential(Nested(x, y), Placeholders(Nested(x, y)), a) == Some(v + v)
    ensures Simultaneous(Nested(x, y), a) == None
  {
    hide Placeholders, Replace, HasStrayBrace, NotNested, Marked, Nested, Resolve;
    NestedPlaceholders(x, y);
    NestedReplacements(x, y, v);
    assert [x, y][1..] == [y] && [y][1..] == [] && v + "" == v;
    assert Replaced(v + v, [], a) == Some(v + v);
    assert Replaced(Marked(y) + (Marked(y) + ""), [y], a) == Some(v + v);
    assert Replaced(Nested(x, y), [x, y], a) == Some(v + v);
  }

  /** Such arguments exist. */
  lemma NestedBracesExample()
    ensures var a := Arguments(None, [], map["x" := Text("y"), "y" := Text("v")], s => None);
            Sequential(Nested("x", "y"), Placeholders(Nested("x", "y")), a) == Some("v" + "v")
  {
    var a := Arguments(None, [], map["x" := Text("y"), "y" := Text("v")], s => None);
    assert Resolve(a, "x") == Some(Text("y")) && Resolve(a, "y") == Some(Text("v"));
    NestedBracesCascade("x", "y", "v", a);
  }

  // ---- When there is a key ----

  /** How often `s.replace(part, ...)` replaces. */
  function Occurrences(s: string, part: string): nat
    requires part != ""
    decreases |s|
  {
    if |s| < |part| then 0
    else if part <= s then 1 + Occurrences(s[|part|..], part)
    else Occurrences(s[1..], part)
  }

  /** How often the loop replaces. */
  function Replacements(text: string, names: seq<string>, a: Arguments): nat
    decreases |names|
  {
    if names == [] || Resolve(a, names[0]) == Some(Unprintable) then 0
    else if Resolve(a, names[0]).None? then Replacements(text, names[1..], a)
    else
      var part := Marked(names[0]);
      Occurrences(text, part) + Replacements(Replace(text, part, Render(Resolve(a, names[0]).value)), names[1..], a)
  }

  lemma {:induction false} CountConcat(s: string, t: string, brace: char)
    ensures Count(s + t, brace) == Count(s, brace) + Count(t, brace)
  {
    if s == "" {
      assert s + t == t;
    } else {
      assert (s + t)[1..] == s[1..] + t;
      CountConcat(s[1..], t, brace);
    }
  }

  lemma {:induction false} BraceFreeCount(s: string, brace: char)
    requires BraceFree(s) && IsBrace(brace)
    ensures Count(s, brace) == 0
  {
    if s != "" {
      assert s[0] in s;
      BraceFreeCount(s[1..], brace);
    }
  }

  lemma {:induction false} NoBraceIsCounted(s: string)
    requires Count(s, '{') == 0 && Count(s, '}') == 0
    ensures BraceFree(s)
  {
    if s != "" { NoBraceIsCounted(s[1..]); }
  }

  lemma MarkedCount(name: string, brace: char)
    requires BraceFree(name) && IsBrace(brace)
    ensures Count(Marked(name), brace) == 1
  {
    assert Marked(name) == "{" + (name + "}");
    CountConcat("{", name + "}", brace);
    CountConcat(name, "}", brace);
    BraceFreeCount(name, brace);
    assert "{"[1..] == "" && "}"[1..] == "";
  }

  /** Each replacement takes one brace of either kind. */
  lemma {:induction false} ReplaceTakes(s: string, name: string, value: string, brace: char)
    requires BraceFree(name) && BraceFree(value) && IsBrace(brace)
    ensures Count(Replace(s, Marked(name), value), brace) + Occurrences(s, Marked(name)) == Count(s, brace)
    decreases |s|
  {
    var part := Marked(name);
    if |s| >= |part| {
      if part <= s {
        var rest := s[|part|..];
        ReplaceTakes(rest, name, value, brace);
        CountConcat(part, rest, brace);
        CountConcat(value, Replace(rest, part, value), brace);
        assert s == part + rest;
        MarkedCount(name, brace);
        BraceFreeCount(value, brace);
      } else {
        ReplaceTakes(s[1..], name, value, brace);
        CountConcat([s[0]], Replace(s[1..], part, value), brace);
        assert [s[0]][1..] == "";
      }
    }
  }

  lemma {:induction false} LoopTakes(text: string, names: seq<string>, a: Arguments, brace: char)
    requires BraceFreeValues(names, a) && (forall name | name in names :: BraceFree(name)) && IsBrace(brace)
    ensures Replaced(text, names, a).Some? ==>
              Count(Replaced(text, names, a).value, brace) + Replacements(text, names, a) == Count(text, brace)
    decreases |names|
  {
    if names != [] {
      var item := Resolve(a, names[0]);
      if item.None? {
        LoopTakes(text, names[1..], a, brace);
      } else if !item.value.Unprintable? {
        ReplaceTakes(text, names[0], Render(item.value), brace);
        LoopTakes(Replace(text, Marked(names[0]), Render(item.value)), names[1..], a, brace);
      }
    }
  }

  lemma {:induction false} PrintableIsReplaced(text: string, names: seq<string>, a: Arguments)
    requires AllPrintable(names, a)
    ensures Replaced(text, names, a).Some?
    decreases |names|
  {
    if names != [] {
      assert Printable(a, names[0]);
      PrintableIsReplaced(Replace(text, Marked(names[0]), Render(Resolve(a, names[0]).value)), names[1..], a);
    }
  }

  /** The braces of a template are those of its placeholders and the stray ones. */
  lemma {:induction false} BracesOfTemplate(s: string, brace: char)
    requires IsBrace(brace)
    ensures Count(s, brace) == |Placeholders(s)| + Strays(Tokens(s), brace)
    decreases |s|
  {
    if s != "" {
      match NameAt(s)
      case Some(name) =>
        BracesOfTemplate(s[|name| + 2..], brace);
        MarkedCount(name, brace);
        CountConcat(Marked(name), s[|name| + 2..], brace);
        assert s == s[..|name| + 2] + s[|name| + 2..];
      case None =>
        BracesOfTemplate(s[1..], brace);
    }
  }

  /**
   A template with placeholders and brace-free values gives a key exactly when all placeholders
   resolve and can be printed, and the loop replaces, beside its placeholders, as many assembled
   ones as there are stray opening braces and as there are stray closing braces.
   */
  lemma KeyIff(template: string, names: seq<string>, a: Arguments)
    requires names != [] && Covers(names, template) && BraceFreeValues(names, a)
    ensures var placeholders, toks := |Placeholders(template)|, Tokens(template);
            Sequential(template, names, a).Some? <==>
              && AllPrintable(names, a)
              && Replacements(template, names, a) == placeholders + Strays(toks, '{')
              && Replacements(template, names, a) == placeholders + Strays(toks, '}')
  {
    PlaceholdersAreNames(template);
    BracesOfTemplate(template, '{');
    BracesOfTemplate(template, '}');
    if AllPrintable(names, a) {
      PrintableIsReplaced(template, names, a);
      LoopTakes(template, names, a, '{');
      LoopTakes(template, names, a, '}');
      var text := Replaced(template, names, a).value;
      if BraceFree(text) {
        BraceFreeCount(text, '{');
        BraceFreeCount(text, '}');
      }
      if Count(text, '{') == 0 && Count(text, '}') == 0 { NoBraceIsCounted(text); }
    } else if AllResolved(names, a) {
      UnprintableGivesNone(template, names, a);
    }
  }

  /** Nested or not, a template with a placeholder and more braces of one kind than of the other gives no key. */
  lemma UnbalancedGivesNone(template: string, a: Arguments)
    requires Placeholders(template) != [] && BraceFreeValues(Placeholders(template), a)
    requires Count(template, '{') != Count(template, '}')
    ensures Sequential(template, Placeholders(template), a) == None
  {
    KeyIff(template, Placeholders(template), a);
    BracesOfTemplate(template, '{');
    BracesOfTemplate(template, '}');
  }

  // ---- What a placeholder stands for ----

  /** The key for a template with one placeholder between two texts, when the placeholder stands for the item. */
  function KeyWith(prefix: string, item: Option<Item>, suffix: string): Option<string> {
    match item
    case None => None
    case Some(NoneItem) => Some(prefix + suffix)
    case Some(Unprintable) => None
    case Some(Text(text)) => if '{' in text || '}' in text then None else Some(prefix + text + suffix)
  }

  lemma {:induction false} PlainFirst(plain: string, rest: string)
    requires BraceFree(plain)
    ensures Placeholders(plain + rest) == Placeholders(rest)
  {
    if plain == "" {
      assert plain + rest == rest;
    } else {
      assert plain[0] in plain && plain + rest == [plain[0]] + (plain[1..] + rest);
      assert NameAt(plain + rest).None?;
      CharFirst(plain[0], plain[1..] + rest);
      PlainFirst(plain[1..], rest);
    }
  }

  lemma {:induction false} NoPlaceholders(plain: string)
    requires BraceFree(plain)
    ensures Placeholders(plain) == []
  {
    PlainFirst(plain, "");
    assert plain + "" == plain;
  }

  lemma {:induction false} ReplaceOne(prefix: string, name: string, suffix: string, value: string)
    requires BraceFree(prefix) && BraceFree(suffix) && name != "" && BraceFree(name)
    ensures Replace(prefix + (Marked(name) + suffix), Marked(name), value) == prefix + (value + suffix)
  {
    ReplaceSkips(prefix, Marked(name) + suffix, name, value);
    ReplaceAtHole(name, suffix, name, value);
    ReplaceSkips(suffix, "", name, value);
    assert suffix + "" == suffix;
    ShortIsUnchanged("", name, value);
  }

  lemma {:induction false} OneIsFound(prefix: string, name: string, suffix: string)
    requires BraceFree(prefix) && BraceFree(suffix) && name != "" && BraceFree(name)
    ensures Placeholders(prefix + (Marked(name) + suffix)) == [name]
  {
    PlainFirst(prefix, Marked(name) + suffix);
    HoleFirst(name, suffix);
    NoPlaceholders(suffix);
  }

  lemma {:induction false} OneIsReplaced(text: string, name: string, a: Arguments)
    ensures Replaced(text, [name], a)
            == match Resolve(a, name)
               case None => Some(text)
               case Some(item) =>
                 if item.Unprintable? then None else Some(Replace(text, Marked(name), Render(item)))
  {
    hide Resolve, Replace, Marked;
    assert [name][1..] == [];
  }

  lemma {:induction false} OnePlaceholder(prefix: string, name: string, suffix: string, a: Arguments)
    requires BraceFree(prefix) && BraceFree(suffix) && name != "" && BraceFree(name)
    ensures var template := prefix + (Marked(name) + suffix);
            && Placeholders(template) == [name]
            && Sequential(template, [name], a) == KeyWith(prefix, Resolve(a, name), suffix)
  {
    hide Placeholders, Resolve, Replace, Replaced, Marked, BraceFree;
    OneIsFound(prefix, name, suffix);
    OneIsReplaced(prefix + (Marked(name) + suffix), name, a);
    var item := Resolve(a, name);
    if item.Some? && !item.value.Unprintable? {
      ReplaceOne(prefix, name, suffix, Render(item.value));
      Surrounded(prefix, Render(item.value), suffix);
    }
  }

  lemma Surrounded(prefix: string, value: string, suffix: string)
    requires BraceFree(prefix) && BraceFree(suffix)
    ensures prefix + (value + suffix) == prefix + value + suffix && prefix + "" == prefix
    ensures BraceFree(prefix + value + suffix) <==> '{' !in value && '}' !in value
  {
    assert forall c | c in value :: c in prefix + value + suffix;
  }

  /** {args[i]} stands for the positional argument of that number, counted from 0, and for nothing outside the range. */
  lemma ArgsPlaceholder(prefix: string, digits: string, suffix: string, a: Arguments)
    requires BraceFree(prefix) && BraceFree(suffix) && BraceFree(digits)
    ensures var template := prefix + ("{args[" + digits + "]}" + suffix);
            var i := a.parseInt(digits);
            Sequential(template, Placeholders(template), a)
            == KeyWith(prefix, if i.Some? && 0 <= i.value < |a.args| then Some(a.args[i.value]) else None, suffix)
  {
    var name := "args[" + digits + "]";
    assert Marked(name) == "{args[" + digits + "]}";
    assert name[5..|name| - 1] == digits && name[0] == 'a';
    OnePlaceholder(prefix, name, suffix, a);
  }

  /** {kwargs.n} stands for the keyword argument n. */
  lemma KwargsPlaceholder(prefix: string, n: string, suffix: string, a: Arguments)
    requires BraceFree(prefix) && BraceFree(suffix) && BraceFree(n)
    ensures var template := prefix + ("{kwargs." + n + "}" + suffix);
            Sequential(template, Placeholders(template), a)
            == KeyWith(prefix, if n in a.kwargs then Some(a.kwargs[n]) else None, suffix)
  {
    var name := "kwargs." + n;
    assert Marked(name) == "{kwargs." + n + "}";
    assert name[7..] == n && name[0] == 'k';
    OnePlaceholder(prefix, name, suffix, a);
  }

  /** With a context {ctx.n} stands for its attribute n. */
  lemma CtxPlaceholder(prefix: string, n: string, suffix: string, a: Arguments)
    requires BraceFree(prefix) && BraceFree(suffix) && BraceFree(n) && a.ctx.Some?
    ensures var template := prefix + ("{ctx." + n + "}" + suffix);
            Sequential(template, Placeholders(template), a)
            == KeyWith(prefix, if n in a.ctx.value then Some(a.ctx.value[n]) else None, suffix)
  {
    var name := "ctx." + n;
    assert Marked(name) == "{ctx." + n + "}";
    assert name[4..] == n && "ctx." <= name;
    OnePlaceholder(prefix, name, suffix, a);
  }

  /** Any other {n}, and without a context {ctx.n} too, stands for the keyword argument of that whole name. */
  lemma NamePlaceholder(prefix: string, n: string, suffix: string, a: Arguments)
    requires BraceFree(prefix) && BraceFree(suffix) && BraceFree(n) && n != ""
    requires !("args[" <= n) && !("kwargs." <= n) && (a.ctx.Some? ==> !("ctx." <= n))
    ensures var template := prefix + ("{" + n + "}" + suffix);
            Sequential(template, Placeholders(template), a)
            == KeyWith(prefix, if n in a.kwargs then Some(a.kwargs[n]) else None, suffix)
  {
    OnePlaceholder(prefix, n, suffix, a);
  }
}
