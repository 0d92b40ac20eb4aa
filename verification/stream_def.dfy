/** Parsing of random-stream definitions such as `exp(3.5)` (jasima's
    `StreamDef.parseDblStream`) and the registry of stream factories it looks
    types up in.

    The text is cut at every '(' and ')' the way `java.util.StringTokenizer`
    does with those two delimiters (empty pieces are never produced), each
    piece is trimmed as `String.trim` does, and exactly two pieces — a type
    and its parameters — are accepted. The factories themselves are opaque:
    each is a record holding its type string and the function that turns a
    parameter string into a stream definition (or null) plus the messages it
    adds to the error list. */
module StreamDefs {

  import opened Base

  /** What a factory's `stringToStreamDef` returns: a definition or null, and
      the error messages it appended. */
  datatype FactoryOutcome<D> = FactoryOutcome(def: Option<D>, messages: seq<string>)

  datatype Factory<D> = Factory(typeString: string, toStreamDef: string -> FactoryOutcome<D>)

  type Registry<D> = map<string, Factory<D>>

  /** The result of a parse: the definition (or null) and the error list
      after the call. */
  datatype Parsed<D> = Parsed(def: Option<D>, errors: seq<string>)

  // ---------------------------------------------------------------------
  // Tokenising

  predicate IsDelim(c: char)
  {
    c == '(' || c == ')'
  }

  predicate DelimFree(t: string)
  {
    forall i :: 0 <= i < |t| ==> !IsDelim(t[i])
  }

  /** `s` with every delimiter removed. */
  function StripDelims(s: string): (r: string)
    ensures DelimFree(r)
    ensures |r| <= |s|
  {
    if |s| == 0 then []
    else if IsDelim(s[0]) then StripDelims(s[1..])
    else [s[0]] + StripDelims(s[1..])
  }

  function Concat(ts: seq<string>): string
  {
    if |ts| == 0 then [] else ts[0] + Concat(ts[1..])
  }

  /** Tokens of `s`, given the characters `cur` of a token already begun. */
  function Split(s: string, cur: string): (r: seq<string>)
    decreases |s|
  {
    if |s| == 0 then (if cur == [] then [] else [cur])
    else if IsDelim(s[0]) then (if cur == [] then [] else [cur]) + Split(s[1..], [])
    else Split(s[1..], cur + [s[0]])
  }

  /** The maximal delimiter-free runs of `s`, in order. */
  function Tokens(s: string): seq<string>
  {
    Split(s, [])
  }

  /** Every token is non-empty and free of parentheses, and together the
      tokens hold exactly the non-delimiter characters of the input. */
  lemma {:induction false} SplitShape(s: string, cur: string)
    requires DelimFree(cur)
    ensures forall k :: 0 <= k < |Split(s, cur)| ==> |Split(s, cur)[k]| > 0 && DelimFree(Split(s, cur)[k])
    ensures Concat(Split(s, cur)) == cur + StripDelims(s)
    decreases |s|
  {
    if |s| == 0 {
      if cur != [] {
        assert Concat([cur]) == cur + Concat([]);
      }
    } else if IsDelim(s[0]) {
      SplitShape(s[1..], []);
      var head: seq<string> := if cur == [] then [] else [cur];
      ConcatAppend(head, Split(s[1..], []));
      if cur != [] {
        assert Concat([cur]) == cur + Concat([]);
      }
    } else {
      SplitShape(s[1..], cur + [s[0]]);
      assert cur + StripDelims(s) == (cur + [s[0]]) + StripDelims(s[1..]);
    }
  }

  lemma {:induction false} ConcatAppend(a: seq<string>, b: seq<string>)
    ensures Concat(a + b) == Concat(a) + Concat(b)
    decreases |a|
  {
    if |a| == 0 {
      assert a + b == b;
    } else {
      assert (a + b)[1..] == a[1..] + b;
      ConcatAppend(a[1..], b);
    }
  }

  lemma TokensShape(s: string)
    ensures forall k :: 0 <= k < |Tokens(s)| ==> |Tokens(s)[k]| > 0 && DelimFree(Tokens(s)[k])
    ensures Concat(Tokens(s)) == StripDelims(s)
  {
    SplitShape(s, []);
  }

  /** A delimiter-free stretch just extends the token being collected. */
  lemma {:induction false} SplitRun(t: string, rest: string, cur: string)
    requires DelimFree(t)
    ensures Split(t + rest, cur) == Split(rest, cur + t)
    decreases |t|
  {
    if |t| > 0 {
      assert (t + rest)[1..] == t[1..] + rest;
      assert (cur + [t[0]]) + t[1..] == cur + t;
      SplitRun(t[1..], rest, cur + [t[0]]);
    } else {
      assert t + rest == rest;
      assert cur + t == cur;
    }
  }

  /** A trailing delimiter only closes the token being collected. */
  lemma {:induction false} SplitTrailingDelim(s: string, d: char, cur: string)
    requires IsDelim(d)
    ensures Split(s + [d], cur) == Split(s, cur)
    decreases |s|
  {
    if |s| == 0 {
      assert s + [d] == [d];
      assert Split([d][1..], []) == [];
    } else {
      assert (s + [d])[1..] == s[1..] + [d];
      if IsDelim(s[0]) {
        SplitTrailingDelim(s[1..], d, []);
      } else {
        SplitTrailingDelim(s[1..], d, cur + [s[0]]);
      }
    }
  }

  /** Writes the tokens separated by the delimiter `d`. */
  function Join(ts: seq<string>, d: char): string
  {
    if |ts| == 0 then []
    else if |ts| == 1 then ts[0]
    else ts[0] + [d] + Join(ts[1..], d)
  }

  /** Round trip: tokenising non-empty, parenthesis-free pieces written with
      a delimiter between neighbours yields the pieces again. */
  lemma {:induction false} TokensOfJoin(ts: seq<string>, d: char)
    requires IsDelim(d)
    requires forall k :: 0 <= k < |ts| ==> |ts[k]| > 0 && DelimFree(ts[k])
    ensures Tokens(Join(ts, d)) == ts
    decreases |ts|
  {
    if |ts| == 1 {
      SplitRun(ts[0], [], []);
      assert ts[0] + [] == ts[0];
    } else if |ts| > 1 {
      var rest := [d] + Join(ts[1..], d);
      assert Join(ts, d) == ts[0] + rest;
      SplitRun(ts[0], rest, []);
      assert [] + ts[0] == ts[0];
      assert rest[1..] == Join(ts[1..], d);
      assert Split(rest, ts[0]) == [ts[0]] + Split(rest[1..], []);
      TokensOfJoin(ts[1..], d);
      assert ts == [ts[0]] + ts[1..];
    }
  }

  /** The tokenising loop, written the way `StringTokenizer` walks the
      string: skip delimiters, then take the longest run of other
      characters. */
  method Tokenize(s: string) returns (toks: seq<string>)
    ensures toks == Tokens(s)
    ensures forall k :: 0 <= k < |toks| ==> |toks[k]| > 0 && DelimFree(toks[k])
  {
    toks := [];
    var i := 0;
    while i < |s|
      invariant 0 <= i <= |s|
      invariant toks + Split(s[i..], []) == Tokens(s)
    {
      if IsDelim(s[i]) {
        assert Split(s[i..], []) == Split(s[i + 1..], []);
        i := i + 1;
      } else {
        var j := i + 1;
        while j < |s| && !IsDelim(s[j])
          invariant i < j <= |s|
          invariant forall k :: i <= k < j ==> !IsDelim(s[k])
        {
          j := j + 1;
        }
        var t := s[i..j];
        assert DelimFree(t);
        assert s[i..] == t + s[j..];
        SplitRun(t, s[j..], []);
        assert [] + t == t;
        if j < |s| {
          assert Split(s[j..], t) == [t] + Split(s[j + 1..], []);
          assert Split(s[j..], []) == Split(s[j + 1..], []);
          assert toks + Split(s[i..], []) == (toks + [t]) + Split(s[j..], []);
        } else {
          assert s[j..] == [];
          assert Split(s[j..], t) == [t];
          assert toks + Split(s[i..], []) == (toks + [t]) + Split(s[j..], []);
        }
        toks := toks + [t];
        i := j;
      }
    }
    assert s[|s|..] == [];
    TokensShape(s);
  }

  // ---------------------------------------------------------------------
  // Trimming

  /** `String.trim` removes every character at or below U+0020. */
  predicate IsSpace(c: char)
  {
    c <= ' '
  }

  /** The first index at or after `i` that does not hold white space. */
  function SkipSpace(s: string, i: nat): (j: nat)
    requires i <= |s|
    ensures i <= j <= |s|
    ensures forall k :: i <= k < j ==> IsSpace(s[k])
    ensures j < |s| ==> !IsSpace(s[j])
    decreases |s| - i
  {
    if i < |s| && IsSpace(s[i]) then SkipSpace(s, i + 1) else i
  }

  /** The end of `s[lo..j]` once its trailing white space is dropped. */
  function SkipSpaceBack(s: string, lo: nat, j: nat): (e: nat)
    requires lo <= j <= |s|
    ensures lo <= e <= j
    ensures forall k :: e <= k < j ==> IsSpace(s[k])
    ensures e > lo ==> !IsSpace(s[e - 1])
    decreases j
  {
    if j > lo && IsSpace(s[j - 1]) then SkipSpaceBack(s, lo, j - 1) else j
  }

  /** `r` is the stretch of `s` starting at `i`, and everything of `s`
      outside it is white space. */
  predicate TrimmedAt(r: string, s: string, i: int)
  {
    && 0 <= i <= |s| - |r| && r == s[i..i + |r|]
    && (forall k :: 0 <= k < i ==> IsSpace(s[k]))
    && (forall k :: i + |r| <= k < |s| ==> IsSpace(s[k]))
  }

  /** `String.trim`: the input with its leading and trailing characters at or
      below U+0020 removed. The result is a stretch of the input, everything
      cut off is white space, and the result neither starts nor ends with
      white space. */
  function Trim(s: string): (r: string)
    ensures exists i :: TrimmedAt(r, s, i)
    ensures |r| > 0 ==> !IsSpace(r[0]) && !IsSpace(r[|r| - 1])
  {
    var b := SkipSpace(s, 0);
    var e := SkipSpaceBack(s, b, |s|);
    assert TrimmedAt(s[b..e], s, b);
    s[b..e]
  }

  /** Trimming a string that has no white space at either end changes nothing. */
  lemma TrimOfTrimmed(t: string)
    requires |t| > 0 ==> !IsSpace(t[0]) && !IsSpace(t[|t| - 1])
    ensures Trim(t) == t
  {
    assert SkipSpace(t, 0) == 0;
    assert SkipSpaceBack(t, 0, |t|) == |t|;
    assert t[0..|t|] == t;
  }

  lemma TrimIdempotent(s: string)
    ensures Trim(Trim(s)) == Trim(s)
  {
    TrimOfTrimmed(Trim(s));
  }

  /** A trimmed stretch of a parenthesis-free token is parenthesis-free. */
  lemma TrimKeepsDelimFree(t: string)
    requires DelimFree(t)
    ensures DelimFree(Trim(t))
  {
    var b := SkipSpace(t, 0);
    var e := SkipSpaceBack(t, b, |t|);
    assert Trim(t) == t[b..e];
    assert forall k :: 0 <= k < e - b ==> t[b..e][k] == t[b + k];
  }


  /** The pieces `parseDblStream` works with: the trimmed tokens. */
  function Pieces(s: string): (ps: seq<string>)
    ensures |ps| == |Tokens(s)|
    ensures forall k :: 0 <= k < |ps| ==> ps[k] == Trim(Tokens(s)[k]) && DelimFree(ps[k])
  {
    TokensShape(s);
    var ts := Tokens(s);
    forall k | 0 <= k < |ts|
      ensures DelimFree(Trim(ts[k]))
    {
      TrimKeepsDelimFree(ts[k]);
    }
    seq(|ts|, k requires 0 <= k < |ts| => Trim(ts[k]))
  }

  // ---------------------------------------------------------------------
  // Error messages

  /** `s` with every '[' and ']' removed (`replaceAll("[\\[\\]]", "")`). */
  function StripBrackets(s: string): (r: string)
    ensures forall i :: 0 <= i < |r| ==> r[i] != '[' && r[i] != ']'
  {
    if |s| == 0 then []
    else if s[0] == '[' || s[0] == ']' then StripBrackets(s[1..])
    else [s[0]] + StripBrackets(s[1..])
  }

  /** Elements separated by ", ", as `AbstractCollection.toString` writes them
      between its brackets. */
  function CommaList(ks: seq<string>): string
  {
    if |ks| == 0 then []
    else if |ks| == 1 then ks[0]
    else ks[0] + ", " + CommaList(ks[1..])
  }

  /** `order` lists the keys of `reg` once each, in the registry's iteration
      order. */
  predicate IsKeyOrder<D>(order: seq<string>, reg: Registry<D>)
  {
    && (forall i :: 0 <= i < |order| ==> order[i] in reg)
    && (forall k :: k in reg ==> k in order)
    && (forall i, j :: 0 <= i < j < |order| ==> order[i] != order[j])
  }

  function InvalidConfigurationMessage(s: string): string
  {
    "invalid stream configuration '" + s + "'"
  }

  function InvalidTypeMessage(typeName: string, order: seq<string>): string
  {
    "Invalid stream type '" + typeName + "'. Supported types are: '"
      + StripBrackets("[" + CommaList(order) + "]") + "'."
  }

  // ---------------------------------------------------------------------
  // Parsing and registration

  /** `parseDblStream(s, errors)`. `order` is the iteration order of the
      registry's key set, used only to list the supported types. */
  function ParseDblStream<D>(s: string, errors: seq<string>, reg: Registry<D>, order: seq<string>): (r: Parsed<D>)
    requires IsKeyOrder(order, reg)
    ensures |r.errors| >= |errors| && r.errors[..|errors|] == errors
    ensures |Pieces(s)| != 2 ==>
      r == Parsed(None, errors + [InvalidConfigurationMessage(s)])
    ensures |Pieces(s)| == 2 && Pieces(s)[0] !in reg ==>
      r == Parsed(None, errors + [InvalidTypeMessage(Pieces(s)[0], order)])
    ensures |Pieces(s)| == 2 && Pieces(s)[0] in reg ==>
      var out := reg[Pieces(s)[0]].toStreamDef(Pieces(s)[1]);
      r == Parsed(out.def, errors + out.messages)
    ensures r.def.Some? ==> |Pieces(s)| == 2 && Pieces(s)[0] in reg
  {
    var ps := Pieces(s);
    if |ps| != 2 then
      Parsed(None, errors + [InvalidConfigurationMessage(s)])
    else
      var typeName := ps[0];
      var parms := ps[1];
      if typeName !in reg then
        Parsed(None, errors + [InvalidTypeMessage(typeName, order)])
      else
        var out := reg[typeName].toStreamDef(parms);
        Parsed(out.def, errors + out.messages)
  }

  /** `registerStreamFactory(f)`: `f` is stored under its own type string,
      replacing any factory registered there before; other entries stay. */
  function RegisterStreamFactory<D>(reg: Registry<D>, f: Factory<D>): (reg': Registry<D>)
    ensures f.typeString in reg' && reg'[f.typeString] == f
    ensures reg'.Keys == reg.Keys + {f.typeString}
    ensures forall k :: k in reg && k != f.typeString ==> reg'[k] == reg[k]
  {
    reg[f.typeString := f]
  }

  /** Re-registering a type string keeps only the latest factory. */
  lemma RegisterReplaces<D>(reg: Registry<D>, f: Factory<D>, g: Factory<D>)
    requires f.typeString == g.typeString
    ensures RegisterStreamFactory(RegisterStreamFactory(reg, f), g) == RegisterStreamFactory(reg, g)
  {
  }

  /** The round trip of the format: a trimmed, parenthesis-free type name
      followed by a trimmed, parenthesis-free parameter text in parentheses
      parses to exactly what the registered factory makes of the parameters,
      and the parser adds no error of its own. */
  lemma {:induction false} ParseWellFormed<D>(typeName: string, parms: string, errors: seq<string>,
                                              reg: Registry<D>, order: seq<string>)
    requires IsKeyOrder(order, reg)
    requires |typeName| > 0 && DelimFree(typeName) && !IsSpace(typeName[0]) && !IsSpace(typeName[|typeName| - 1])
    requires |parms| > 0 && DelimFree(parms) && !IsSpace(parms[0]) && !IsSpace(parms[|parms| - 1])
    requires typeName in reg
    ensures ParseDblStream(typeName + "(" + parms + ")", errors, reg, order)
      == Parsed(reg[typeName].toStreamDef(parms).def, errors + reg[typeName].toStreamDef(parms).messages)
  {
    var s := typeName + "(" + parms + ")";
    var joined := Join([typeName, parms], '(');
    assert joined == typeName + "(" + parms;
    assert s == joined + ")";
    SplitTrailingDelim(joined, ')', []);
    TokensOfJoin([typeName, parms], '(');
    assert Tokens(s) == [typeName, parms];
    TrimOfTrimmed(typeName);
    TrimOfTrimmed(parms);
  }

  /** `a(b)` is type `a` with parameters `b`. */
  lemma ExampleAccepted()
    ensures Pieces("a(b)") == ["a", "b"]
  {
    var joined := Join(["a", "b"], '(');
    assert joined == "a(b";
    assert "a(b)" == joined + ")";
    SplitTrailingDelim(joined, ')', []);
    TokensOfJoin(["a", "b"], '(');
    TrimOfTrimmed("a");
    TrimOfTrimmed("b");
  }

  /** `a(b)(c)` has three pieces and is rejected with one message. */
  lemma ExampleRejected<D>(reg: Registry<D>, order: seq<string>, errors: seq<string>)
    requires IsKeyOrder(order, reg)
    ensures ParseDblStream("a(b)(c)", errors, reg, order)
      == Parsed(None, errors + ["invalid stream configuration 'a(b)(c)'"])
  {
    assert "a(b)(c)" == "a" + "(b)(c)";
    SplitRun("a", "(b)(c)", []);
    assert Split("(b)(c)", "a") == ["a"] + Split("b)(c)", []);
    SplitRun("b", ")(c)", []);
    assert Split(")(c)", "b") == ["b"] + Split("(c)", []);
    assert Split("(c)", []) == Split("c)", []);
    SplitRun("c", ")", []);
    assert Split(")", "c") == ["c"];
    assert |Tokens("a(b)(c)")| == 3;
    assert InvalidConfigurationMessage("a(b)(c)") == "invalid stream configuration 'a(b)(c)'";
  }

  /** White space after the closing parenthesis is a third piece of its own:
      the tokens are cut before they are trimmed. */
  lemma ExampleTrailingBlank()
    ensures |Pieces(" a ( b ) ")| == 3
  {
    assert " a ( b ) " == " a " + "( b ) ";
    SplitRun(" a ", "( b ) ", []);
    assert Split("( b ) ", " a ") == [" a "] + Split(" b ) ", []);
    SplitRun(" b ", ") ", []);
    assert Split(") ", " b ") == [" b "] + Split(" ", []);
    SplitRun(" ", [], []);
    assert |Tokens(" a ( b ) ")| == 3;
  }
}
