/** The JSON pretty printer: one pass over UTF-16 code units that tracks
    strings, escapes and nesting, and a final trim. */
module PrettyPrint {

  type Unit = u: int | 0 <= u < 0x1_0000
  type Text = seq<Unit>

  const QUOTE: Unit := 0x22
  const BACKSLASH: Unit := 0x5C
  const NEWLINE: Unit := 0x0A
  const SPACE: Unit := 0x20
  const COMMA: Unit := 0x2C
  const COLON: Unit := 0x3A
  const OPEN_BRACE: Unit := 0x7B
  const OPEN_BRACKET: Unit := 0x5B
  const CLOSE_BRACE: Unit := 0x7D
  const CLOSE_BRACKET: Unit := 0x5D

  /** Character.isWhitespace: the space, line and paragraph separators without
      the non-breaking ones, and the control characters it names. */
  predicate IsWhitespace(c: Unit) {
    || 0x09 <= c <= 0x0D || 0x1C <= c <= 0x20
    || c == 0x1680 || 0x2000 <= c <= 0x2006 || 0x2008 <= c <= 0x200A
    || c == 0x2028 || c == 0x2029 || c == 0x205F || c == 0x3000
  }

  /** The characters of the Unicode categories Zs, Zl and Zp in the basic plane,
      without the three non-breaking ones, and nine control characters. */
  lemma WhitespaceExactly(c: Unit)
    ensures IsWhitespace(c) <==>
              || (c !in {0x00A0, 0x2007, 0x202F}
                  && (c in {0x0020, 0x00A0, 0x1680, 0x202F, 0x205F, 0x3000} || 0x2000 <= c <= 0x200A || c in {0x2028, 0x2029}))
              || c in {0x09, 0x0A, 0x0B, 0x0C, 0x0D, 0x1C, 0x1D, 0x1E, 0x1F}
  {
  }

  // ----- strings and what lies outside them -----

  datatype Scan = Scan(inString: bool, escape: bool)

  const OUTSIDE := Scan(false, false)

  function Scanned(st: Scan, c: Unit): Scan {
    if !st.inString then (if c == QUOTE then Scan(true, false) else st)
    else if st.escape then Scan(true, false)
    else if c == BACKSLASH then Scan(true, true)
    else if c == QUOTE then OUTSIDE
    else st
  }

  function After(st: Scan, s: Text): Scan
    decreases s
  {
    if s == [] then st else After(Scanned(st, s[0]), s[1..])
  }

  /** The text without the whitespace outside its strings. */
  function StripFrom(st: Scan, s: Text): Text
    decreases s
  {
    if s == [] then []
    else if !st.inString && IsWhitespace(s[0]) then StripFrom(Scanned(st, s[0]), s[1..])
    else [s[0]] + StripFrom(Scanned(st, s[0]), s[1..])
  }

  function Strip(s: Text): Text {
    StripFrom(OUTSIDE, s)
  }

  /** The strings of the text, quotes included, one after the other. */
  function LiteralsFrom(st: Scan, s: Text): Text
    decreases s
  {
    if s == [] then []
    else (if st.inString || s[0] == QUOTE then [s[0]] else []) + LiteralsFrom(Scanned(st, s[0]), s[1..])
  }

  function Literals(s: Text): Text {
    LiteralsFrom(OUTSIDE, s)
  }

  // ----- the printer as a function -----

  function Indentation(indent: nat): Text {
    if indent == 0 then [] else [SPACE, SPACE] + Indentation(indent - 1)
  }

  function Indented(indent: nat, st: Scan, c: Unit): nat {
    if st.inString then indent
    else if c == OPEN_BRACE || c == OPEN_BRACKET then indent + 1
    else if c == CLOSE_BRACE || c == CLOSE_BRACKET then (if indent == 0 then 0 else indent - 1)
    else indent
  }

  /** What the printer writes for one character. */
  function Emitted(indent: nat, st: Scan, c: Unit): Text {
    if st.inString || c == QUOTE then [c]
    else if c == OPEN_BRACE || c == OPEN_BRACKET || c == COMMA then [c, NEWLINE] + Indentation(Indented(indent, st, c))
    else if c == CLOSE_BRACE || c == CLOSE_BRACKET then [NEWLINE] + Indentation(Indented(indent, st, c)) + [c]
    else if c == COLON then [COLON, SPACE]
    else if IsWhitespace(c) then []
    else [c]
  }

  function RawFrom(indent: nat, st: Scan, s: Text): Text
    decreases s
  {
    if s == [] then [] else Emitted(indent, st, s[0]) + RawFrom(Indented(indent, st, s[0]), Scanned(st, s[0]), s[1..])
  }

  function AfterIndent(indent: nat, st: Scan, s: Text): nat
    decreases s
  {
    if s == [] then indent else AfterIndent(Indented(indent, st, s[0]), Scanned(st, s[0]), s[1..])
  }

  /** String.trim: characters up to the space are cut off at both ends. */
  function TrimLeft(s: Text): Text {
    if s != [] && s[0] <= SPACE then TrimLeft(s[1..]) else s
  }

  function TrimRight(s: Text): Text {
    if s != [] && s[|s| - 1] <= SPACE then TrimRight(s[..|s| - 1]) else s
  }

  function Trim(s: Text): Text {
    TrimRight(TrimLeft(s))
  }

  function Pretty(s: Text): Text {
    Trim(RawFrom(0, OUTSIDE, s))
  }

  // ----- the printer in place -----

  method AppendIndent(out: Text, indent: nat) returns (r: Text)
    ensures r == out + Indentation(indent)
  {
    r := out;
    for i := 0 to indent
      invariant r + Indentation(indent - i) == out + Indentation(indent)
    {
      assert r + [SPACE, SPACE] + Indentation(indent - i - 1) == r + Indentation(indent - i);
      r := r + [SPACE, SPACE];
    }
    assert r + Indentation(0) == r;
  }

  /** One character outside strings. */
  method PrintOutside(out: Text, indent: nat, c: Unit) returns (r: Text, newIndent: nat, inString: bool)
    ensures r == out + Emitted(indent, OUTSIDE, c)
    ensures newIndent == Indented(indent, OUTSIDE, c) && Scanned(OUTSIDE, c) == Scan(inString, false)
  {
    r, newIndent, inString := out, indent, false;
    if c == QUOTE {
      inString := true;
      r := r + [c];
    } else if c == OPEN_BRACE || c == OPEN_BRACKET {
      r := r + [c] + [NEWLINE];
      newIndent := newIndent + 1;
      r := AppendIndent(r, newIndent);
      assert out + [c] + [NEWLINE] + Indentation(newIndent) == out + ([c, NEWLINE] + Indentation(newIndent));
    } else if c == CLOSE_BRACE || c == CLOSE_BRACKET {
      r := r + [NEWLINE];
      newIndent := if newIndent - 1 < 0 then 0 else newIndent - 1;
      r := AppendIndent(r, newIndent);
      r := r + [c];
      assert out + [NEWLINE] + Indentation(newIndent) + [c] == out + ([NEWLINE] + Indentation(newIndent) + [c]);
    } else if c == COMMA {
      r := r + [c] + [NEWLINE];
      r := AppendIndent(r, newIndent);
      assert out + [c] + [NEWLINE] + Indentation(newIndent) == out + ([c, NEWLINE] + Indentation(newIndent));
    } else if c == COLON {
      r := r + [COLON, SPACE];
    } else if !IsWhitespace(c) {
      r := r + [c];
    }
  }

  lemma RawStep(out: Text, indent: nat, st: Scan, json: Text, i: nat)
    requires i < |json|
    ensures out + RawFrom(indent, st, json[i..])
            == out + Emitted(indent, st, json[i]) + RawFrom(Indented(indent, st, json[i]), Scanned(st, json[i]), json[i + 1..])
  {
    assert json[i..][0] == json[i] && json[i..][1..] == json[i + 1..];
  }

  lemma EmittedInString(indent: nat, st: Scan, c: Unit)
    ensures st.inString ==> Emitted(indent, st, c) == [c] && Indented(indent, st, c) == indent
  {
  }

  method PrettyPrintJson(json: Text) returns (r: Text)
    ensures r == Pretty(json)
  {
    var out: Text, indent: nat, inString, escape := [], 0, false, false;
    for i := 0 to |json|
      invariant escape ==> inString
      invariant out + RawFrom(indent, Scan(inString, escape), json[i..]) == RawFrom(0, OUTSIDE, json)
    {
      hide RawFrom, Pretty, Emitted, Indented;
      var c := json[i];
      RawStep(out, indent, Scan(inString, escape), json, i);
      if inString {
        EmittedInString(indent, Scan(inString, escape), c);
        out := out + [c];
        if escape {
          escape := false;
        } else if c == BACKSLASH {
          escape := true;
        } else if c == QUOTE {
          inString := false;
        }
      } else {
        out, indent, inString := PrintOutside(out, indent, c);
      }
    }
    assert json[|json|..] == [] && out + RawFrom(indent, Scan(inString, escape), []) == out;
    r := Trim(out);
  }

  // ----- scanning a concatenation -----

  lemma {:induction false} AfterConcat(st: Scan, a: Text, b: Text)
    ensures After(st, a + b) == After(After(st, a), b)
    decreases a
  {
    if a == [] {
      assert a + b == b;
    } else {
      assert (a + b)[1..] == a[1..] + b;
      AfterConcat(Scanned(st, a[0]), a[1..], b);
    }
  }

  lemma {:induction false} StripConcat(st: Scan, a: Text, b: Text)
    ensures StripFrom(st, a + b) == StripFrom(st, a) + StripFrom(After(st, a), b)
    decreases a
  {
    if a == [] {
      assert a + b == b;
    } else {
      assert (a + b)[1..] == a[1..] + b;
      StripConcat(Scanned(st, a[0]), a[1..], b);
    }
  }

  lemma {:induction false} RawConcat(indent: nat, st: Scan, a: Text, b: Text)
    ensures RawFrom(indent, st, a + b) == RawFrom(indent, st, a) + RawFrom(AfterIndent(indent, st, a), After(st, a), b)
    decreases a
  {
    hide Emitted, Indented;
    if a == [] {
      assert a + b == b;
    } else {
      assert (a + b)[1..] == a[1..] + b;
      RawConcat(Indented(indent, st, a[0]), Scanned(st, a[0]), a[1..], b);
    }
  }

  // ----- the layout is insignificant -----

  /** Text that the scanner passes outside strings and that is all whitespace. */
  lemma {:induction false} BlankStrips(s: Text)
    requires forall i :: 0 <= i < |s| ==> s[i] == SPACE || s[i] == NEWLINE
    ensures StripFrom(OUTSIDE, s) == [] && After(OUTSIDE, s) == OUTSIDE
  {
    if s != [] {
      BlankStrips(s[1..]);
    }
  }

  lemma {:induction false} IndentationBlank(indent: nat)
    ensures forall i :: 0 <= i < |Indentation(indent)| ==> Indentation(indent)[i] == SPACE
  {
    if indent > 0 {
      IndentationBlank(indent - 1);
    }
  }

  /** What is written for a character differs from it in blanks only. */
  lemma EmittedStrips(indent: nat, st: Scan, c: Unit)
    requires !st.inString ==> st == OUTSIDE
    ensures StripFrom(st, Emitted(indent, st, c)) == StripFrom(st, [c])
    ensures After(st, Emitted(indent, st, c)) == Scanned(st, c)
  {
    var layout := [NEWLINE] + Indentation(Indented(indent, st, c));
    IndentationBlank(Indented(indent, st, c));
    if !st.inString {
      BlankStrips(layout);
      BlankStrips([SPACE]);
      StripConcat(st, [c], [SPACE]);
      AfterConcat(st, [c], [SPACE]);
      assert [c] + [SPACE] == [c, SPACE];
      StripConcat(st, [c], layout);
      AfterConcat(st, [c], layout);
      StripConcat(st, layout, [c]);
      AfterConcat(st, layout, [c]);
      assert [c] + layout == [c, NEWLINE] + Indentation(Indented(indent, st, c));
    }
  }

  /** The printer changes nothing but whitespace outside strings. */
  lemma {:induction false} RawStrips(indent: nat, st: Scan, s: Text)
    requires !st.inString ==> st == OUTSIDE
    ensures StripFrom(st, RawFrom(indent, st, s)) == StripFrom(st, s)
    decreases s
  {
    if s != [] {
      var c, rest := s[0], RawFrom(Indented(indent, st, s[0]), Scanned(st, s[0]), s[1..]);
      EmittedStrips(indent, st, c);
      StripConcat(st, Emitted(indent, st, c), rest);
      RawStrips(Indented(indent, st, c), Scanned(st, c), s[1..]);
      hide Emitted, Indented;
      StripConcat(st, [c], s[1..]);
      assert [c] + s[1..] == s;
    }
  }

  /** The printer does not see whitespace outside strings. */
  lemma {:induction false} RawOfStripped(indent: nat, st: Scan, s: Text)
    ensures RawFrom(indent, st, StripFrom(st, s)) == RawFrom(indent, st, s)
    decreases s
  {
    if s != [] {
      var next, rest := Scanned(st, s[0]), StripFrom(Scanned(st, s[0]), s[1..]);
      RawOfStripped(Indented(indent, st, s[0]), next, s[1..]);
      hide Indentation;
      if !(!st.inString && IsWhitespace(s[0])) {
        assert ([s[0]] + rest)[1..] == rest;
      }
    }
  }

  // ----- trimming -----

  predicate Low(s: Text) {
    forall i :: 0 <= i < |s| ==> s[i] <= SPACE
  }

  /** Empty, or neither end can be trimmed. */
  predicate Firm(s: Text) {
    s != [] ==> s[0] > SPACE && s[|s| - 1] > SPACE
  }

  lemma {:induction false} TrimLeftPieces(s: Text) returns (p: Text)
    ensures s == p + TrimLeft(s) && Low(p) && (TrimLeft(s) != [] ==> TrimLeft(s)[0] > SPACE)
  {
    p := [];
    if s != [] && s[0] <= SPACE {
      var rest := TrimLeftPieces(s[1..]);
      p := [s[0]] + rest;
      assert s == [s[0]] + s[1..];
    }
  }

  lemma {:induction false} TrimRightPieces(s: Text) returns (q: Text)
    ensures s == TrimRight(s) + q && Low(q) && (TrimRight(s) != [] ==> TrimRight(s)[|TrimRight(s)| - 1] > SPACE)
  {
    q := [];
    if s != [] && s[|s| - 1] <= SPACE {
      var rest := TrimRightPieces(s[..|s| - 1]);
      q := rest + [s[|s| - 1]];
      assert s == s[..|s| - 1] + [s[|s| - 1]];
    }
  }

  lemma TrimPieces(s: Text) returns (p: Text, q: Text)
    ensures s == p + Trim(s) + q && Low(p) && Low(q) && Firm(Trim(s))
  {
    hide TrimLeft, TrimRight;
    p := TrimLeftPieces(s);
    q := TrimRightPieces(TrimLeft(s));
    assert TrimLeft(s) == Trim(s) + q && s == p + TrimLeft(s);
    if Trim(s) != [] {
      assert Trim(s)[0] == TrimLeft(s)[0];
    }
    assert p + (Trim(s) + q) == p + Trim(s) + q;
  }

  /** What is cut off does not matter. */
  lemma TrimAround(p: Text, x: Text, q: Text)
    requires Low(p) && Low(q)
    ensures Trim(p + x + q) == Trim(x)
  {
    TrimLeftSkips(p, x + q);
    assert p + x + q == p + (x + q);
    var lead := TrimLeftPieces(x);
    TrimLeftSkips(lead, TrimLeft(x) + q);
    assert x + q == lead + (TrimLeft(x) + q);
    if TrimLeft(x) == [] {
      assert TrimLeft(x) + q == q;
      TrimLeftSkips(q, []);
      assert q + [] == q;
    } else {
      TrimRightSkips(TrimLeft(x), q);
    }
  }

  lemma {:induction false} TrimLeftSkips(p: Text, x: Text)
    requires Low(p)
    ensures TrimLeft(p + x) == TrimLeft(x)
  {
    if p == [] {
      assert p + x == x;
    } else {
      assert (p + x)[1..] == p[1..] + x;
      TrimLeftSkips(p[1..], x);
    }
  }

  lemma {:induction false} TrimRightSkips(x: Text, q: Text)
    requires Low(q)
    ensures TrimRight(x + q) == TrimRight(x)
  {
    if q == [] {
      assert x + q == x;
    } else {
      assert (x + q)[..|x + q| - 1] == x + q[..|q| - 1];
      TrimRightSkips(x, q[..|q| - 1]);
    }
  }

  // ----- printing twice -----

  /** Low characters of the stripped text print as themselves and leave the
      printer where it was, outside strings; inside they do so too. */
  lemma {:induction false} LowPrints(indent: nat, st: Scan, s: Text)
    requires Low(s)
    ensures RawFrom(indent, st, StripFrom(st, s)) == StripFrom(st, s)
    ensures st == OUTSIDE ==> After(st, StripFrom(st, s)) == OUTSIDE && AfterIndent(indent, st, StripFrom(st, s)) == indent
    ensures Low(StripFrom(st, s)) && (st == OUTSIDE ==> After(st, s) == OUTSIDE)
    decreases s
  {
    if s != [] {
      var next, rest := Scanned(st, s[0]), StripFrom(Scanned(st, s[0]), s[1..]);
      LowPrints(indent, next, s[1..]);
      if !(!st.inString && IsWhitespace(s[0])) {
        assert ([s[0]] + rest)[1..] == rest;
      }
    }
  }

  /** Main result: printing twice equals printing once, on every input. */
  lemma PrettyTwice(s: Text)
    ensures Pretty(Pretty(s)) == Pretty(s)
  {
    hide Trim, RawFrom, StripFrom, After, AfterIndent;
    var raw, m := RawFrom(0, OUTSIDE, s), Pretty(s);
    var p, q := TrimPieces(raw);
    var st := After(OUTSIDE, m);
    var head, middle, tail := Strip(p), Strip(m), StripFrom(st, q);
    LowPrints(0, OUTSIDE, p);
    StripConcat(OUTSIDE, p + m, q);
    StripConcat(OUTSIDE, p, m);
    AfterConcat(OUTSIDE, p, m);
    RawStrips(0, OUTSIDE, s);
    assert Strip(s) == head + middle + tail;
    RawOfStripped(0, OUTSIDE, s);
    RawConcat(0, OUTSIDE, head + middle, tail);
    RawConcat(0, OUTSIDE, head, middle);
    AfterConcat(OUTSIDE, head, middle);
    StripEnds(m);
    LowPrints(AfterIndent(0, OUTSIDE, head + middle), st, q);
    RawOfStripped(0, OUTSIDE, m);
    assert raw == head + RawFrom(0, OUTSIDE, m) + tail;
    TrimAround(head, RawFrom(0, OUTSIDE, m), tail);
  }

  /** Stripping does not change where the text ends. */
  lemma {:induction false} StripEnds(s: Text)
    ensures After(OUTSIDE, Strip(s)) == After(OUTSIDE, s)
  {
    StripEndsFrom(OUTSIDE, s);
  }

  lemma {:induction false} StripEndsFrom(st: Scan, s: Text)
    ensures After(st, StripFrom(st, s)) == After(st, s)
    decreases s
  {
    if s != [] {
      var rest := StripFrom(Scanned(st, s[0]), s[1..]);
      StripEndsFrom(Scanned(st, s[0]), s[1..]);
      if !(!st.inString && IsWhitespace(s[0])) {
        assert ([s[0]] + rest)[1..] == rest;
      }
    }
  }

  // ----- what printing keeps -----

  /** Outside strings the only whitespace is what trimming would cut. */
  predicate Tidy(st: Scan, s: Text)
    decreases s
  {
    s != [] ==> (!st.inString && IsWhitespace(s[0]) ==> s[0] <= SPACE) && Tidy(Scanned(st, s[0]), s[1..])
  }

  lemma {:induction false} TidyConcat(st: Scan, a: Text, b: Text)
    ensures Tidy(st, a + b) <==> Tidy(st, a) && Tidy(After(st, a), b)
    decreases a
  {
    if a == [] {
      assert a + b == b;
    } else {
      assert (a + b)[1..] == a[1..] + b;
      TidyConcat(Scanned(st, a[0]), a[1..], b);
    }
  }

  lemma {:induction false} LayoutTidy(s: Text)
    requires forall i :: 0 <= i < |s| ==> s[i] == SPACE || s[i] == NEWLINE
    ensures Tidy(OUTSIDE, s)
  {
    if s != [] {
      LayoutTidy(s[1..]);
    }
  }

  lemma EmittedTidy(indent: nat, st: Scan, c: Unit)
    requires !st.inString ==> st == OUTSIDE
    ensures Tidy(st, Emitted(indent, st, c))
  {
    var layout := [NEWLINE] + Indentation(Indented(indent, st, c));
    IndentationBlank(Indented(indent, st, c));
    if !st.inString {
      LayoutTidy(layout);
      LayoutTidy([SPACE]);
      BlankStrips(layout);
      TidyConcat(st, [c], [SPACE]);
      assert [c] + [SPACE] == [c, SPACE];
      TidyConcat(st, [c], layout);
      TidyConcat(st, layout, [c]);
      assert [c] + layout == [c, NEWLINE] + Indentation(Indented(indent, st, c));
    }
  }

  lemma {:induction false} RawTidy(indent: nat, st: Scan, s: Text)
    requires !st.inString ==> st == OUTSIDE
    ensures Tidy(st, RawFrom(indent, st, s))
    decreases s
  {
    if s != [] {
      EmittedTidy(indent, st, s[0]);
      EmittedStrips(indent, st, s[0]);
      RawTidy(Indented(indent, st, s[0]), Scanned(st, s[0]), s[1..]);
      hide Emitted, Indented;
      TidyConcat(st, Emitted(indent, st, s[0]), RawFrom(Indented(indent, st, s[0]), Scanned(st, s[0]), s[1..]));
    }
  }

  /** The ends of a tidy text that cannot be trimmed are significant. */
  lemma EndsKept(s: Text)
    requires Tidy(OUTSIDE, s) && Firm(s) && s != []
    ensures Strip(s) != [] && Strip(s)[0] == s[0] && Strip(s)[|Strip(s)| - 1] == s[|s| - 1]
  {
    var front, last := s[..|s| - 1], [s[|s| - 1]];
    assert s == front + last;
    TidyConcat(OUTSIDE, front, last);
    StripConcat(OUTSIDE, front, last);
  }

  /** Main result: the output has the same strings and the same characters
      outside strings as the input, up to whitespace, exactly if the first and
      the last of them are above the space. Otherwise trimming cuts them off. */
  lemma PrettyKeepsSignificant(s: Text)
    ensures Strip(Pretty(s)) == Strip(s) <==> Firm(Strip(s))
  {
    hide Trim, RawFrom, StripFrom, After, Tidy;
    var raw, m := RawFrom(0, OUTSIDE, s), Pretty(s);
    var p, q := TrimPieces(raw);
    var st := After(OUTSIDE, m);
    var head, middle, tail := Strip(p), Strip(m), StripFrom(st, q);
    LowPrints(0, OUTSIDE, p);
    LowPrints(0, st, q);
    StripConcat(OUTSIDE, p + m, q);
    StripConcat(OUTSIDE, p, m);
    AfterConcat(OUTSIDE, p, m);
    RawStrips(0, OUTSIDE, s);
    assert Strip(s) == head + middle + tail;
    if m == [] {
      StripNothing();
    } else {
      RawTidy(0, OUTSIDE, s);
      TidyConcat(OUTSIDE, p + m, q);
      TidyConcat(OUTSIDE, p, m);
      EndsKept(m);
    }
    assert |head + middle + tail| == |head| + |middle| + |tail|;
  }

  lemma StripNothing()
    ensures Strip([]) == []
  {
  }

  /** Trimming cuts off a control character that is not whitespace. */
  lemma ControlCharacterLost()
    ensures Pretty([1]) == [] && Strip([1]) == [1]
  {
    assert RawFrom(0, OUTSIDE, [1]) == [1];
    assert TrimLeft([1]) == [];
  }

  lemma {:induction false} LiteralsOfStripped(st: Scan, s: Text)
    ensures LiteralsFrom(st, StripFrom(st, s)) == LiteralsFrom(st, s)
    decreases s
  {
    if s != [] {
      var rest := StripFrom(Scanned(st, s[0]), s[1..]);
      LiteralsOfStripped(Scanned(st, s[0]), s[1..]);
      if !(!st.inString && IsWhitespace(s[0])) {
        assert ([s[0]] + rest)[1..] == rest;
      }
    }
  }

  lemma {:induction false} LiteralsConcat(st: Scan, a: Text, b: Text)
    ensures LiteralsFrom(st, a + b) == LiteralsFrom(st, a) + LiteralsFrom(After(st, a), b)
    decreases a
  {
    if a == [] {
      assert a + b == b;
    } else {
      assert (a + b)[1..] == a[1..] + b;
      LiteralsConcat(Scanned(st, a[0]), a[1..], b);
    }
  }

  /** Low characters neither open nor close a string. */
  lemma {:induction false} LowLiterals(st: Scan, s: Text)
    requires Low(s)
    ensures LiteralsFrom(st, s) == if st.inString then s else []
    ensures After(st, s).inString == st.inString
    decreases s
  {
    if s != [] {
      LowLiterals(Scanned(st, s[0]), s[1..]);
      if st.inString {
        assert [s[0]] + s[1..] == s;
      }
    }
  }

  lemma {:induction false} RawEnds(indent: nat, st: Scan, s: Text)
    requires !st.inString ==> st == OUTSIDE
    ensures After(st, RawFrom(indent, st, s)) == After(st, s)
    decreases s
  {
    if s != [] {
      EmittedStrips(indent, st, s[0]);
      RawEnds(Indented(indent, st, s[0]), Scanned(st, s[0]), s[1..]);
      hide Emitted, Indented;
      AfterConcat(st, Emitted(indent, st, s[0]), RawFrom(Indented(indent, st, s[0]), Scanned(st, s[0]), s[1..]));
    }
  }

  /** A text that ends inside a string ends with its last significant character. */
  lemma {:induction false} LastInString(st: Scan, s: Text)
    requires s != [] && After(st, s).inString
    ensures StripFrom(st, s) != [] && StripFrom(st, s)[|StripFrom(st, s)| - 1] == s[|s| - 1]
    decreases s
  {
    if |s| > 1 {
      LastInString(Scanned(st, s[0]), s[1..]);
    }
  }

  lemma PiecesLiterals(p: Text, m: Text, q: Text)
    requires Low(p) && Low(q)
    ensures Literals(p + m + q) == Literals(m) + (if After(OUTSIDE, m).inString then q else [])
    ensures After(OUTSIDE, p + m + q).inString == After(OUTSIDE, m).inString
  {
    hide LiteralsFrom, StripFrom, RawFrom;
    var st := After(OUTSIDE, m);
    LowPrints(0, OUTSIDE, p);
    hide After;
    LowLiterals(OUTSIDE, p);
    LowLiterals(st, q);
    AfterConcat(OUTSIDE, p + m, q);
    AfterConcat(OUTSIDE, p, m);
    LiteralsConcat(OUTSIDE, p + m, q);
    LiteralsConcat(OUTSIDE, p, m);
    assert [] + Literals(m) == Literals(m);
  }

  lemma RawKeepsStrings(s: Text)
    ensures var raw := RawFrom(0, OUTSIDE, s);
            && Literals(raw) == Literals(s) && After(OUTSIDE, raw) == After(OUTSIDE, s)
            && (After(OUTSIDE, s).inString ==> s != [] && raw != [] && raw[|raw| - 1] == s[|s| - 1])
  {
    hide RawFrom, StripFrom, LiteralsFrom;
    var raw := RawFrom(0, OUTSIDE, s);
    LiteralsOfStripped(OUTSIDE, s);
    LiteralsOfStripped(OUTSIDE, raw);
    RawStrips(0, OUTSIDE, s);
    RawEnds(0, OUTSIDE, s);
    if After(OUTSIDE, s).inString {
      LastInString(OUTSIDE, s);
      LastInString(OUTSIDE, raw);
    }
  }

  /** Main result. Strings are copied verbatim exactly if the text ends outside
      a string or with a character above the space; only the end of a string
      that is never closed can be trimmed. */
  lemma PrettyKeepsStrings(s: Text)
    ensures Literals(Pretty(s)) == Literals(s) <==>
              !After(OUTSIDE, s).inString || s[|s| - 1] > SPACE
  {
    NothingOpen();
    hide Trim, RawFrom, After, Literals;
    var raw, m := RawFrom(0, OUTSIDE, s), Pretty(s);
    var p, q := TrimPieces(raw);
    RawKeepsStrings(s);
    PiecesLiterals(p, m, q);
    if After(OUTSIDE, s).inString {
      assert m != [];
      LastOfPieces(p, m, q);
      assert |Literals(m) + q| == |Literals(m)| + |q|;
    }
  }

  /** The space in a string that is never closed is lost. */
  lemma UnclosedStringTrimmed()
    ensures Literals(Pretty([QUOTE, SPACE])) != Literals([QUOTE, SPACE])
  {
    PrettyKeepsStrings([QUOTE, SPACE]);
    var open := Scanned(OUTSIDE, QUOTE);
    assert [SPACE][1..] == [] && After(open, [SPACE]) == open;
    assert [QUOTE, SPACE][1..] == [SPACE];
  }

  lemma LastOfPieces(p: Text, m: Text, q: Text)
    requires m != [] && Low(q) && Firm(m)
    ensures var t := p + m + q; t[|t| - 1] > SPACE <==> q == []
  {
  }

  lemma NothingOpen()
    ensures !After(OUTSIDE, []).inString
  {
  }

  /** Every character outside strings is whitespace or above the space. */
  predicate Printable(st: Scan, s: Text)
    decreases s
  {
    s != [] ==> (!st.inString && !IsWhitespace(s[0]) ==> s[0] > SPACE) && Printable(Scanned(st, s[0]), s[1..])
  }

  lemma {:induction false} PrintableFirm(st: Scan, s: Text)
    requires Printable(st, s) && After(st, s) == OUTSIDE
    ensures var t := StripFrom(st, s);
            t != [] ==> t[|t| - 1] > SPACE && (st == OUTSIDE ==> t[0] > SPACE)
    decreases s
  {
    if s != [] {
      PrintableFirm(Scanned(st, s[0]), s[1..]);
      if StripFrom(Scanned(st, s[0]), s[1..]) == [] {
        StripEndsFrom(Scanned(st, s[0]), s[1..]);
      }
    }
  }

  /** All of section 2 of RFC 8259 is of this kind: a text that ends outside a
      string, with no control characters outside strings but whitespace. */
  lemma PrintableKept(s: Text)
    requires Printable(OUTSIDE, s) && After(OUTSIDE, s) == OUTSIDE
    ensures Strip(Pretty(s)) == Strip(s) && Literals(Pretty(s)) == Literals(s)
  {
    PrintableFirm(OUTSIDE, s);
    PrettyKeepsSignificant(s);
    PrettyKeepsStrings(s);
  }

  // ----- the layout -----

  predicate Opener(c: Unit) {
    c == OPEN_BRACE || c == OPEN_BRACKET
  }

  predicate Closer(c: Unit) {
    c == CLOSE_BRACE || c == CLOSE_BRACKET
  }

  function Bracket(st: Scan, c: Unit): int {
    if st.inString then 0 else if Opener(c) then 1 else if Closer(c) then -1 else 0
  }

  /** Brackets opened less those closed, outside strings. */
  function Depth(st: Scan, s: Text): int
    decreases s
  {
    if s == [] then 0
    else Bracket(st, s[0]) + Depth(Scanned(st, s[0]), s[1..])
  }

  /** The least depth that the text comes to: below zero if brackets are closed
      that are not open. */
  function Lowest(st: Scan, s: Text): int
    decreases s
  {
    if s == [] then 0
    else
      var rest := Bracket(st, s[0]) + Lowest(Scanned(st, s[0]), s[1..]);
      if rest < 0 then rest else 0
  }

  /** The brackets open at the end: those opened since the depth was lowest. */
  function Open(s: Text): int {
    Depth(OUTSIDE, s) - Lowest(OUTSIDE, s)
  }

  function Spaces(n: nat): Text {
    seq(n, _ => SPACE)
  }

  lemma {:induction false} IndentationSpaces(indent: nat)
    ensures Indentation(indent) == Spaces(2 * indent)
  {
    if indent > 0 {
      IndentationSpaces(indent - 1);
      assert [SPACE, SPACE] + Spaces(2 * indent - 2) == Spaces(2 * indent);
    }
  }

  /** The counter of the printer, which stops at zero, counts the open brackets. */
  lemma {:induction false} IndentIsOpen(indent: nat, st: Scan, s: Text)
    ensures var depth, open := indent + Depth(st, s), Depth(st, s) - Lowest(st, s);
            AfterIndent(indent, st, s) == if depth >= open then depth else open
    ensures Lowest(st, s) <= 0
    decreases s
  {
    if s != [] {
      IndentIsOpen(Indented(indent, st, s[0]), Scanned(st, s[0]), s[1..]);
    }
  }

  /** It is the depth exactly as long as no bracket was closed that was not open. */
  lemma OpenIsDepth(s: Text)
    ensures AfterIndent(0, OUTSIDE, s) == Open(s) >= 0
    ensures Open(s) == Depth(OUTSIDE, s) <==> Lowest(OUTSIDE, s) == 0
  {
    IndentIsOpen(0, OUTSIDE, s);
  }

  lemma PrintedAt(a: Text, c: Unit, b: Text)
    ensures Open(a + [c]) >= 0
    ensures RawFrom(0, OUTSIDE, a + [c] + b)
            == RawFrom(0, OUTSIDE, a) + Emitted(AfterIndent(0, OUTSIDE, a), After(OUTSIDE, a), c)
               + RawFrom(Open(a + [c]), After(OUTSIDE, a + [c]), b)
    ensures Indented(AfterIndent(0, OUTSIDE, a), After(OUTSIDE, a), c) == Open(a + [c])
    ensures After(OUTSIDE, a + [c]) == Scanned(After(OUTSIDE, a), c)
  {
    hide Emitted, Indented, Scanned, Open;
    var before, st := AfterIndent(0, OUTSIDE, a), After(OUTSIDE, a);
    OpenIsDepth(a + [c]);
    RawConcat(0, OUTSIDE, a + [c], b);
    RawConcat(0, OUTSIDE, a, [c]);
    AfterConcat(OUTSIDE, a, [c]);
    AfterIndentConcat(0, OUTSIDE, a, [c]);
    assert RawFrom(before, st, [c]) == Emitted(before, st, c) by {
      assert [c][1..] == [] && Emitted(before, st, c) + [] == Emitted(before, st, c);
    }
    assert After(st, [c]) == Scanned(st, c) && AfterIndent(before, st, [c]) == Indented(before, st, c);
  }

  /** Main result: each bracket and comma outside strings has its line break, on
      the right side, and two spaces after that for each bracket that is then
      open. */
  lemma LineBreaks(a: Text, c: Unit, b: Text)
    requires After(OUTSIDE, a) == OUTSIDE
    requires Opener(c) || Closer(c) || c == COMMA
    ensures var open := Open(a + [c]);
            && open >= 0
            && RawFrom(0, OUTSIDE, a + [c] + b)
               == RawFrom(0, OUTSIDE, a)
                  + (if Closer(c) then [NEWLINE] + Spaces(2 * open) + [c] else [c, NEWLINE] + Spaces(2 * open))
                  + RawFrom(open, OUTSIDE, b)
  {
    PrintedAt(a, c, b);
    IndentationSpaces(Open(a + [c]));
    hide RawFrom, After, AfterIndent, Open;
  }

  /** Characters that outside strings stand for themselves. */
  predicate Ordinary(c: Unit) {
    !Opener(c) && !Closer(c) && c != COMMA && c != COLON && c != QUOTE && !IsWhitespace(c)
  }

  /** Main result: a colon gets one space, whitespace outside strings is dropped,
      and whatever stands in a string, its quotes and every other character are
      written alone. */
  lemma OtherCharacters(a: Text, c: Unit, b: Text)
    requires After(OUTSIDE, a).inString || !(Opener(c) || Closer(c) || c == COMMA)
    ensures var st := After(OUTSIDE, a);
            var written :=
              if !st.inString && c == COLON then [COLON, SPACE]
              else if !st.inString && IsWhitespace(c) then []
              else [c];
            && Open(a + [c]) == Open(a) >= 0
            && RawFrom(0, OUTSIDE, a + [c] + b)
               == RawFrom(0, OUTSIDE, a) + written + RawFrom(Open(a), After(OUTSIDE, a + [c]), b)
  {
    PrintedAt(a, c, b);
    OpenIsDepth(a);
    hide RawFrom, After, AfterIndent, Open;
  }

  /** Every character is in a string, or starts one, or is ordinary. */
  predicate Plain(st: Scan, s: Text)
    decreases s
  {
    s != [] ==> (st.inString || s[0] == QUOTE || Ordinary(s[0])) && Plain(Scanned(st, s[0]), s[1..])
  }

  lemma {:induction false} PlainPrints(indent: nat, st: Scan, s: Text)
    requires Plain(st, s)
    ensures RawFrom(indent, st, s) == s && AfterIndent(indent, st, s) == indent
    decreases s
  {
    if s != [] {
      PlainPrints(indent, Scanned(st, s[0]), s[1..]);
      assert [s[0]] + s[1..] == s;
    }
  }

  /** Main result: a run of such characters, say a number, a name or a string,
      stays in one piece wherever it stands. */
  lemma RunsStayTogether(a: Text, run: Text, b: Text)
    requires Plain(After(OUTSIDE, a), run)
    ensures Open(a) >= 0
    ensures RawFrom(0, OUTSIDE, a + run + b)
            == RawFrom(0, OUTSIDE, a) + run + RawFrom(Open(a), After(OUTSIDE, a + run), b)
  {
    OpenIsDepth(a);
    hide RawFrom, AfterIndent, After, Plain, Open;
    RawConcat(0, OUTSIDE, a + run, b);
    RawConcat(0, OUTSIDE, a, run);
    AfterIndentConcat(0, OUTSIDE, a, run);
    PlainPrints(AfterIndent(0, OUTSIDE, a), After(OUTSIDE, a), run);
  }

  lemma {:induction false} AfterIndentConcat(indent: nat, st: Scan, a: Text, b: Text)
    ensures AfterIndent(indent, st, a + b) == AfterIndent(AfterIndent(indent, st, a), After(st, a), b)
    decreases a
  {
    hide Indented;
    if a == [] {
      assert a + b == b;
    } else {
      assert (a + b)[1..] == a[1..] + b;
      AfterIndentConcat(Indented(indent, st, a[0]), Scanned(st, a[0]), a[1..], b);
    }
  }

  // ----- where strings begin and end -----

  /** The backslashes at the end of the text. */
  function Backslashes(s: Text): nat {
    if s != [] && s[|s| - 1] == BACKSLASH then 1 + Backslashes(s[..|s| - 1]) else 0
  }

  /** Every quote comes after an odd number of backslashes. */
  predicate QuotesEscaped(s: Text) {
    forall k :: 0 <= k < |s| && s[k] == QUOTE ==> Backslashes(s[..k]) % 2 == 1
  }

  lemma BackslashesSnoc(s: Text, c: Unit)
    ensures Backslashes(s + [c]) == if c == BACKSLASH then 1 + Backslashes(s) else 0
  {
    assert (s + [c])[..|s|] == s;
  }

  lemma AfterSnoc(st: Scan, s: Text, c: Unit)
    ensures After(st, s + [c]) == Scanned(After(st, s), c)
  {
    AfterConcat(st, s, [c]);
    assert [c][1..] == [] && After(After(st, s), [c]) == Scanned(After(st, s), c);
  }

  lemma Opened()
    ensures After(OUTSIDE, [QUOTE]) == Scan(true, false)
  {
    assert [QUOTE][1..] == [];
  }

  lemma EscapedFront(s: Text)
    requires QuotesEscaped(s) && s != []
    ensures QuotesEscaped(s[..|s| - 1]) && (s[|s| - 1] == QUOTE ==> Backslashes(s[..|s| - 1]) % 2 == 1)
  {
    hide Backslashes;
    var front := s[..|s| - 1];
    assert forall k :: 0 <= k < |front| ==> front[..k] == s[..k] && front[k] == s[k];
  }

  lemma {:induction false} InsideString(s: Text)
    requires QuotesEscaped(s)
    ensures After(After(OUTSIDE, [QUOTE]), s) == Scan(true, Backslashes(s) % 2 == 1)
  {
    var open := Scan(true, false);
    Opened();
    if s != [] {
      var front, last := s[..|s| - 1], s[|s| - 1];
      EscapedFront(s);
      hide After, Backslashes, QuotesEscaped;
      InsideString(front);
      assert s == front + [last];
      AfterSnoc(open, front, last);
      BackslashesSnoc(front, last);
    }
  }

  /** Main result: a string runs from its quote over all quotes that an odd
      number of backslashes precedes, up to the first that comes after an even
      number; a text without quotes is outside strings. */
  lemma StringsEnd(s: Text)
    requires QuotesEscaped(s)
    ensures After(OUTSIDE, [QUOTE] + s).inString
    ensures After(OUTSIDE, [QUOTE] + s + [QUOTE]) == OUTSIDE <==> Backslashes(s) % 2 == 0
    ensures QUOTE !in s ==> After(OUTSIDE, s) == OUTSIDE
  {
    InsideString(s);
    AfterConcat(OUTSIDE, [QUOTE], s);
    AfterConcat(OUTSIDE, [QUOTE] + s, [QUOTE]);
    assert [QUOTE][1..] == [];
    if QUOTE !in s {
      WithoutQuotes(s);
    }
  }

  lemma {:induction false} WithoutQuotes(s: Text)
    requires QUOTE !in s
    ensures After(OUTSIDE, s) == OUTSIDE
  {
    if s != [] {
      WithoutQuotes(s[1..]);
    }
  }

  /** What is printed for a text, from what is printed for its rest. */
  lemma PrintsFirst(indent: nat, st: Scan, s: Text, printed: Text, written: Text)
    requires s != [] && RawFrom(Indented(indent, st, s[0]), Scanned(st, s[0]), s[1..]) == printed
    requires Emitted(indent, st, s[0]) == written
    ensures RawFrom(indent, st, s) == written + printed
  {
  }

  /** One text in full: an object with a number. */
  lemma PrettyExample()
    ensures Pretty([0x7B, 0x22, 0x22, 0x3A, 0x31, 0x7D])
            == [0x7B, 0x0A, 0x20, 0x20, 0x22, 0x22, 0x3A, 0x20, 0x31, 0x0A, 0x7D]
  {
    hide RawFrom;
    RawExample();
  }

  lemma RawOfMember()
    ensures RawFrom(1, OUTSIDE, [0x3A, 0x31, 0x7D]) == [0x3A, 0x20, 0x31, 0x0A, 0x7D]
  {
    var s: Text := [0x3A, 0x31, 0x7D];
    assert Indentation(0) == [] && RawFrom(0, OUTSIDE, []) == [];
    hide RawFrom, Indentation;
    PrintsFirst(1, OUTSIDE, s[2..], [], [0x0A, 0x7D]);
    assert s[1..][1..] == s[2..];
    PrintsFirst(1, OUTSIDE, s[1..], [0x0A, 0x7D], [0x31]);
    PrintsFirst(1, OUTSIDE, s, [0x31, 0x0A, 0x7D], [0x3A, 0x20]);
  }

  lemma RawExample()
    ensures RawFrom(0, OUTSIDE, [0x7B, 0x22, 0x22, 0x3A, 0x31, 0x7D])
            == [0x7B, 0x0A, 0x20, 0x20, 0x22, 0x22, 0x3A, 0x20, 0x31, 0x0A, 0x7D]
  {
    var s: Text := [0x7B, 0x22, 0x22, 0x3A, 0x31, 0x7D];
    RawOfMember();
    assert Indentation(1) == [SPACE, SPACE];
    hide RawFrom, Indentation;
    assert s[2..][1..] == [0x3A, 0x31, 0x7D];
    PrintsFirst(1, Scan(true, false), s[2..], [0x3A, 0x20, 0x31, 0x0A, 0x7D], [0x22]);
    assert s[1..][1..] == s[2..];
    PrintsFirst(1, OUTSIDE, s[1..], [0x22, 0x3A, 0x20, 0x31, 0x0A, 0x7D], [0x22]);
    PrintsFirst(0, OUTSIDE, s, [0x22, 0x22, 0x3A, 0x20, 0x31, 0x0A, 0x7D], [0x7B, 0x0A, 0x20, 0x20]);
  }
}
