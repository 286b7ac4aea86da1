/** The `${VAR}` expander of amos/src/config.rs. */
module ExpandEnv {
  import opened Prelude

  /** The process environment and the caller's defaults. */
  datatype Names = Names(env: map<string, string>, defaults: map<string, string>)

  /** What a placeholder is replaced by: the environment first, then the default, then nothing. */
  function Value(names: Names, name: string): string {
    if name in names.env then names.env[name] else if name in names.defaults then names.defaults[name] else ""
  }

  // ----- What a text means -----

  datatype Token = Lit(c: char) | Var(name: string)

  predicate OpensHere(text: string) {
    |text| >= 2 && text[0] == '$' && text[1] == '{'
  }

  /** `str::find('}')`. */
  function FindClose(text: string): (at: Option<nat>)
    ensures at.Some? ==> at.value < |text| && text[at.value] == '}'
  {
    if text == "" then None
    else if text[0] == '}' then Some(0)
    else
      var rest := FindClose(text[1..]);
      if rest.Some? then Some(rest.value + 1) else None
  }

  /** It is the first `}`. */
  lemma {:induction false} CloseFound(text: string)
    ensures FindClose(text).None? <==> '}' !in text
    ensures FindClose(text).Some? ==> '}' !in text[..FindClose(text).value]
  {
    if text == "" || text[0] == '}' {
    } else {
      CloseFound(text[1..]);
      if FindClose(text).Some? {
        var at := FindClose(text).value;
        assert text[..at] == [text[0]] + text[1..][..at - 1];
      } else {
        assert text == [text[0]] + text[1..];
      }
    }
  }

  /** `str::find("${")`. */
  function FindOpen(text: string): (at: Option<nat>)
    ensures at.Some? ==> at.value + 2 <= |text| && OpensHere(text[at.value..])
  {
    if |text| < 2 then None
    else if OpensHere(text) then Some(0)
    else
      var rest := FindOpen(text[1..]);
      assert rest.Some? ==> text[1..][rest.value..] == text[rest.value + 1..];
      if rest.Some? then Some(rest.value + 1) else None
  }

  /** It is the first `${`. */
  lemma {:induction false} OpenFound(text: string, i: nat)
    requires i < |text| && OpensHere(text[i..])
    ensures FindOpen(text).Some? && FindOpen(text).value <= i
  {
    if i == 0 {
      assert text[0..] == text;
    } else {
      assert text[1..][i - 1..] == text[i..];
      OpenFound(text[1..], i - 1);
    }
  }

  /** A closed placeholder starts here. */
  predicate VarHere(text: string) {
    OpensHere(text) && FindClose(text[2..]).Some?
  }

  /** A text read left to right: closed placeholders are variables, all else is literal. */
  function Tokens(text: string): seq<Token> {
    if text == "" then []
    else if VarHere(text) then
      var end := FindClose(text[2..]).value;
      [Var(text[2..][..end])] + Tokens(text[2..][end + 1..])
    else [Lit(text[0])] + Tokens(text[1..])
  }

  function Piece(names: Names, t: Token): string {
    match t
    case Lit(c) => [c]
    case Var(name) => Value(names, name)
  }

  function Render(names: Names, tokens: seq<Token>): string {
    if tokens == [] then "" else Piece(names, tokens[0]) + Render(names, tokens[1..])
  }

  /** A placeholder as it is written. */
  function Hole(name: string): string {
    ['$', '{'] + name + ['}']
  }

  function Source(tokens: seq<Token>): string {
    if tokens == [] then ""
    else (match tokens[0] case Lit(c) => [c] case Var(name) => Hole(name)) + Source(tokens[1..])
  }

  function Expanded(names: Names, text: string): string {
    Render(names, Tokens(text))
  }

  // ----- Steps of the reading -----

  lemma {:induction false} CloseAfter(z: string, w: string)
    requires '}' !in z
    ensures FindClose(z + ['}'] + w) == Some(|z|)
  {
    var text := z + ['}'] + w;
    if z == "" {
    } else {
      assert text[1..] == z[1..] + ['}'] + w;
      CloseAfter(z[1..], w);
    }
  }

  /** What a closed placeholder at the front looks like. */
  lemma HoleInFront(text: string) returns (name: string, rest: string)
    requires VarHere(text)
    ensures '}' !in name && text == Hole(name) + rest
    ensures name == text[2..][..FindClose(text[2..]).value] && rest == text[2..][FindClose(text[2..]).value + 1..]
  {
    var end := FindClose(text[2..]).value;
    name, rest := text[2..][..end], text[2..][end + 1..];
    CloseFound(text[2..]);
    assert text[2..] == name + ['}'] + rest;
  }

  lemma HoleReads(name: string, rest: string)
    requires '}' !in name
    ensures VarHere(Hole(name) + rest)
    ensures FindClose((Hole(name) + rest)[2..]) == Some(|name|) && (Hole(name) + rest)[2..][|name| + 1..] == rest
    ensures Tokens(Hole(name) + rest) == [Var(name)] + Tokens(rest)
  {
    var text := Hole(name) + rest;
    CloseAfter(name, rest);
    assert text[2..] == name + ['}'] + rest;
    assert text[2..][..|name|] == name && text[2..][|name| + 1..] == rest;
  }

  lemma HoleExpands(names: Names, name: string, rest: string)
    requires '}' !in name
    ensures Expanded(names, Hole(name) + rest) == Value(names, name) + Expanded(names, rest)
  {
    HoleReads(name, rest);
    assert ([Var(name)] + Tokens(rest))[1..] == Tokens(rest);
  }

  lemma LitExpands(names: Names, text: string)
    requires text != "" && !VarHere(text)
    ensures Expanded(names, text) == [text[0]] + Expanded(names, text[1..])
  {
    assert ([Lit(text[0])] + Tokens(text[1..]))[1..] == Tokens(text[1..]);
  }

  lemma Assoc(x: string, y: string, z: string)
    ensures x + (y + z) == x + y + z
  {
  }

  /** Reading loses nothing: the tokens spell the text. */
  lemma {:induction false} TokensSpellText(text: string)
    ensures Source(Tokens(text)) == text
    decreases |text|
  {
    if text == "" {
    } else if VarHere(text) {
      var name, rest := HoleInFront(text);
      TokensSpellText(rest);
      assert Tokens(text) == [Var(name)] + Tokens(rest) && Tokens(text)[1..] == Tokens(rest);
    } else {
      TokensSpellText(text[1..]);
      assert Tokens(text)[1..] == Tokens(text[1..]);
      assert text == [text[0]] + text[1..];
    }
  }

  /** Without `}` nothing is a placeholder: an unterminated tail is kept verbatim. */
  lemma {:induction false} UnclosedIsKept(names: Names, text: string)
    requires '}' !in text
    ensures Expanded(names, text) == text
    decreases |text|
  {
    if text == "" {
    } else {
      if OpensHere(text) {
        CloseFound(text[2..]);
      }
      LitExpands(names, text);
      UnclosedIsKept(names, text[1..]);
    }
  }

  lemma NoOpenAfter(text: string)
    requires text != "" && FindOpen(text).None?
    ensures !OpensHere(text) && FindOpen(text[1..]).None?
  {
  }

  /** Without `${` a text is unchanged. */
  lemma {:induction false} NoPlaceholderIsKept(names: Names, text: string)
    requires FindOpen(text).None?
    ensures Expanded(names, text) == text
    decreases |text|
  {
    if text == "" {
    } else {
      var first, rest := text[..1], text[1..];
      NoOpenAfter(text);
      LitExpands(names, text);
      NoPlaceholderIsKept(names, rest);
      assert text == first + rest;
    }
  }

  lemma {:induction false} LitsExpand(names: Names, lits: string, rest: string)
    requires FindOpen(lits + rest) == Some(|lits|)
    ensures Expanded(names, lits + rest) == lits + Expanded(names, rest)
    decreases |lits|
  {
    if lits == "" {
      assert lits + rest == rest;
    } else {
      var text := lits + rest;
      assert text[1..] == lits[1..] + rest;
      assert !OpensHere(text) && FindOpen(text[1..]) == Some(|lits| - 1);
      LitExpands(names, text);
      LitsExpand(names, lits[1..], rest);
      Assoc([lits[0]], lits[1..], Expanded(names, rest));
      assert [lits[0]] + lits[1..] == lits;
    }
  }

  /** What comes before the first `${` is kept. */
  lemma PrefixIsKept(names: Names, text: string)
    requires FindOpen(text).Some?
    ensures var i := FindOpen(text).value; Expanded(names, text) == text[..i] + Expanded(names, text[i..])
  {
    var i := FindOpen(text).value;
    assert text == text[..i] + text[i..];
    LitsExpand(names, text[..i], text[i..]);
  }

  /** A text that begins with `${`, and what is after that. */
  lemma HoleHere(names: Names, text: string, after: string)
    requires OpensHere(text) && text[2..] == after
    ensures match FindClose(after)
            case Some(end) => Expanded(names, text) == Value(names, after[..end]) + Expanded(names, after[end + 1..])
            case None => Expanded(names, text) == text
  {
    if FindClose(after).Some? {
      var name, more := HoleInFront(text);
      HoleExpands(names, name, more);
    } else {
      CloseFound(after);
      assert text == ['$', '{'] + after;
      UnclosedIsKept(names, text);
    }
  }

  /** One turn of the loop: what is out and what is left still make the whole. */
  lemma Turn(names: Names, out: string, rest: string)
    requires FindOpen(rest).Some?
    ensures var i := FindOpen(rest).value; var after := rest[i + 2..];
            match FindClose(after)
            case Some(end) => out + rest[..i] + Value(names, after[..end]) + Expanded(names, after[end + 1..]) ==
                out + Expanded(names, rest)
            case None => out + rest[..i] + rest[i..] == out + Expanded(names, rest)
  {
    var i := FindOpen(rest).value;
    PrefixIsKept(names, rest);
    assert rest[i..][2..] == rest[i + 2..];
    TurnAt(names, out, rest[..i], rest[i..], rest[i + 2..]);
  }

  lemma TurnAt(names: Names, out: string, head: string, hole: string, after: string)
    requires OpensHere(hole) && hole[2..] == after
    ensures match FindClose(after)
            case Some(end) => out + head + Value(names, after[..end]) + Expanded(names, after[end + 1..]) ==
                out + (head + Expanded(names, hole))
            case None => out + head + hole == out + (head + Expanded(names, hole))
  {
    HoleHere(names, hole, after);
    match FindClose(after) {
      case Some(end) => Splice(out, head, Value(names, after[..end]), Expanded(names, after[end + 1..]));
      case None => Assoc(out, head, hole);
    }
  }

  lemma Splice(out: string, head: string, value: string, more: string)
    ensures out + head + value + more == out + (head + (value + more))
  {
  }

  /** `expand_env`. */
  method Expand(text: string, names: Names) returns (out: string)
    ensures out == Expanded(names, text)
  {
    ghost var whole := Expanded(names, text);
    out := "";
    var rest := text;
    var start := FindOpen(rest);
    while start.Some?
      invariant start == FindOpen(rest)
      invariant out + Expanded(names, rest) == whole
      decreases |rest|
    {
      Turn(names, out, rest);
      var i := start.value;
      out := out + rest[..i];
      var after := rest[i + 2..];
      match FindClose(after) {
        case Some(end) =>
          out := out + Value(names, after[..end]);
          rest := after[end + 1..];
        case None =>
          out := out + rest[i..];
          rest := "";
      }
      start := FindOpen(rest);
    }
    NoPlaceholderIsKept(names, rest);
    out := out + rest;
  }

  // ----- Single pass -----

  /** A placeholder standing alone yields its value as it is, whatever placeholders the value spells. */
  lemma ValueIsNotRescanned(names: Names, name: string)
    requires '}' !in name
    ensures Expanded(names, Hole(name)) == Value(names, name)
  {
    HoleExpands(names, name, "");
    assert Hole(name) + "" == Hole(name);
  }

  /** The value is the environment's if it has the name, else the default, else nothing. */
  lemma PlaceholderByCases(names: Names, name: string)
    requires '}' !in name
    ensures name in names.env ==> Expanded(names, "${" + name + "}") == names.env[name]
    ensures name !in names.env && name in names.defaults ==> Expanded(names, "${" + name + "}") == names.defaults[name]
    ensures name !in names.env && name !in names.defaults ==> Expanded(names, "${" + name + "}") == ""
  {
    assert "${" + name + "}" == Hole(name);
    ValueIsNotRescanned(names, name);
  }

  // ----- Texts side by side -----

  /** The text leaves a `${` open at its end. */
  predicate LeftOpen(text: string) {
    if text == "" then false
    else if OpensHere(text) then
      var close := FindClose(text[2..]);
      close.None? || LeftOpen(text[2..][close.value + 1..])
    else LeftOpen(text[1..])
  }

  /** A placeholder straddles the seam: begun in `a` or by its last character, and closed in `b`. */
  predicate Straddles(a: string, b: string) {
    '}' in b && (LeftOpen(a) || (a != "" && a[|a| - 1] == '$' && b != "" && b[0] == '{'))
  }

  lemma HoleBeforeSeam(name: string, rest: string, b: string)
    requires '}' !in name
    ensures Straddles(Hole(name) + rest, b) <==> Straddles(rest, b)
  {
    var a := Hole(name) + rest;
    HoleReads(name, rest);
    assert LeftOpen(a) <==> LeftOpen(rest);
    assert a[|a| - 1] == if rest == "" then '}' else rest[|rest| - 1];
  }

  lemma PastHole(names: Names, name: string, rest: string, b: string)
    requires '}' !in name
    ensures Expanded(names, Hole(name) + rest) == Value(names, name) + Expanded(names, rest)
    ensures Expanded(names, Hole(name) + rest + b) == Value(names, name) + Expanded(names, rest + b)
  {
    HoleExpands(names, name, rest);
    HoleExpands(names, name, rest + b);
    assert Hole(name) + rest + b == Hole(name) + (rest + b);
  }

  lemma PastLit(names: Names, a: string, b: string)
    requires a != "" && !VarHere(a) && !VarHere(a + b)
    ensures Expanded(names, a) == [a[0]] + Expanded(names, a[1..])
    ensures Expanded(names, a + b) == [a[0]] + Expanded(names, a[1..] + b)
  {
    var whole := a + b;
    assert whole[0] == a[0] && whole[1..] == a[1..] + b;
    LitExpands(names, a);
    LitExpands(names, whole);
  }

  lemma StillStraddles(a: string, b: string)
    requires Straddles(a, b) && a != "" && !OpensHere(a + b)
    ensures Straddles(a[1..], b)
  {
    assert |a| >= 2 ==> !OpensHere(a) && a[1..][|a| - 2] == a[|a| - 1];
  }

  /** Texts can be expanded apart where no placeholder straddles the seam. */
  lemma {:induction false} SeamHolds(names: Names, a: string, b: string)
    requires !Straddles(a, b)
    ensures Expanded(names, a + b) == Expanded(names, a) + Expanded(names, b)
    decreases |a|
  {
    if a == "" {
      assert a + b == b && Expanded(names, a) == "";
    } else if VarHere(a) {
      var name, rest := HoleInFront(a);
      HoleBeforeSeam(name, rest, b);
      SeamHolds(names, rest, b);
      PastHole(names, name, rest, b);
      Assoc(Value(names, name), Expanded(names, rest), Expanded(names, b));
    } else {
      LitAtSeam(a, b);
      SeamHolds(names, a[1..], b);
      PastLit(names, a, b);
      Assoc([a[0]], Expanded(names, a[1..]), Expanded(names, b));
    }
  }

  lemma LitAtSeam(a: string, b: string)
    requires a != "" && !VarHere(a) && !Straddles(a, b)
    ensures !VarHere(a + b) && !Straddles(a[1..], b)
  {
    var whole := a + b;
    if OpensHere(a) {
      assert whole[2..] == a[2..] + b;
      CloseFound(a[2..]);
      CloseFound(whole[2..]);
    } else if OpensHere(whole) {
      assert |a| == 1;
      assert whole[2..] == b[1..];
      CloseFound(whole[2..]);
    }
    assert a[1..] != "" ==> a[1..][|a| - 2] == a[|a| - 1];
  }

  const NOTHING_SET: Names := Names(map[], map[])

  /** A text that ends a placeholder begun before `z` is no shorter read on its own. */
  lemma {:induction false} RestIsNoLonger(z: string, w: string)
    requires '}' !in z
    ensures |Expanded(NOTHING_SET, z + ['}'] + w)| >= |Expanded(NOTHING_SET, w)|
    decreases |z|
  {
    var text := z + ['}'] + w;
    if VarHere(text) {
      assert |z| >= 2;
      assert text == Hole(z[2..]) + w;
      HoleExpands(NOTHING_SET, z[2..], w);
    } else {
      LitExpands(NOTHING_SET, text);
      if z == "" {
        assert text[1..] == w;
      } else {
        RestIsNoLonger(z[1..], w);
        assert text[1..] == z[1..] + ['}'] + w;
      }
    }
  }

  /** A placeholder that straddles the seam is lost: with nothing set, the whole expands to less than the parts. */
  lemma {:induction false} SeamBreaks(a: string, b: string)
    requires Straddles(a, b)
    ensures |Expanded(NOTHING_SET, a + b)| < |Expanded(NOTHING_SET, a)| + |Expanded(NOTHING_SET, b)|
    decreases |a|
  {
    if VarHere(a) {
      var name, rest := HoleInFront(a);
      HoleBeforeSeam(name, rest, b);
      SeamBreaks(rest, b);
      PastHole(NOTHING_SET, name, rest, b);
    } else if OpensHere(a + b) {
      StraddlerIsLost(a, b);
    } else {
      PastLit(NOTHING_SET, a, b);
      StillStraddles(a, b);
      SeamBreaks(a[1..], b);
    }
  }

  /** What straddles, in one piece. */
  lemma StraddlerIsHole(a: string, b: string) returns (name: string, z: string, w: string)
    requires a != "" && OpensHere(a + b) && !VarHere(a) && '}' in b
    ensures '}' !in a && '}' !in z && '}' !in name
    ensures b == z + ['}'] + w && a + b == Hole(name) + w
  {
    CloseFound(b);
    var f := FindClose(b).value;
    z, w := b[..f], b[f + 1..];
    assert |a| == 1 ==> b[0] == '{' && f > 0;
    name := (a + z)[2..];
    assert a + z == ['$', '{'] + name;
    assert a + b == (a + z) + ['}'] + w;
    if |a| >= 2 {
      CloseFound(a[2..]);
      assert a == ['$', '{'] + a[2..];
    }
  }

  lemma StraddlerIsLost(a: string, b: string)
    requires a != "" && OpensHere(a + b) && !VarHere(a) && '}' in b
    ensures |Expanded(NOTHING_SET, a + b)| < |Expanded(NOTHING_SET, a)| + |Expanded(NOTHING_SET, b)|
  {
    var name, z, w := StraddlerIsHole(a, b);
    RestIsNoLonger(z, w);
    UnclosedIsKept(NOTHING_SET, a);
    HoleExpands(NOTHING_SET, name, w);
  }

  /** Expanding apart is expanding whole, whatever is set, if and only if no placeholder straddles the seam. */
  lemma SeamExactly(a: string, b: string)
    ensures (forall names :: Expanded(names, a + b) == Expanded(names, a) + Expanded(names, b)) <==> !Straddles(a, b)
  {
    if Straddles(a, b) {
      SeamBreaks(a, b);
      assert |Expanded(NOTHING_SET, a + b)| != |Expanded(NOTHING_SET, a) + Expanded(NOTHING_SET, b)|;
    } else {
      forall names ensures Expanded(names, a + b) == Expanded(names, a) + Expanded(names, b) {
        SeamHolds(names, a, b);
      }
    }
  }
}
