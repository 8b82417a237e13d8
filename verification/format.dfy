/** The output-file name template of gfs_output_read (src/output.c): the
    template is cut into literal text and printf conversions, each
    conversion typed by the argument it will be given (the process id,
    the iteration number or the time), and format_string renders the
    pieces back into a file name. */
module Format {
  import opened Wrappers

  /** FormatType: NONE is literal text. */
  datatype Kind = Iter | Time | Pid | Literal

  /** A Format record: its text and type. */
  datatype Segment = Segment(s: string, t: Kind)

  /** The tokenizer's result: the segments in template order, and whether
      the file name changes from one call to the next. */
  datatype Formats = Formats(segs: seq<Segment>, dynamic: bool)

  /** A conversion that ends in a character that is not understood (or
      runs into the end of the template, reported as '\0'); the dynamic
      flag keeps what the conversions before it set. */
  datatype FormatError = UnknownConversion(spec: char, dynamic: bool)

  /** The characters that end a conversion. */
  const Specifiers: string := "diouxXeEfFgGaAcsCSpn%"

  /** Conversions of an integer argument. */
  const IntConversions: string := "diouxXc"

  /** Conversions of a floating-point argument. */
  const FloatConversions: string := "eEfFgGaA"

  /** Where the first '%' of f is, |f| if none. */
  function FirstPercent(f: string): (k: nat)
    ensures k <= |f|
    ensures k < |f| ==> f[k] == '%'
    decreases |f|
  {
    if f == [] || f[0] == '%' then 0 else FirstPercent(f[1..]) + 1
  }

  /** No '%' comes before the first. */
  lemma {:induction false} FirstPercentFirst(f: string)
    ensures forall i :: 0 <= i < FirstPercent(f) ==> f[i] != '%'
    decreases |f|
  {
    if f != [] && f[0] != '%' {
      FirstPercentFirst(f[1..]);
      forall i | 0 < i < FirstPercent(f) ensures f[i] != '%' {
        assert f[i] == f[1..][i - 1];
      }
    }
  }

  /** Where the first conversion-ending character of f at or after i is,
      |f| if none. */
  function ConversionEnd(f: string, i: nat): (j: nat)
    requires i <= |f|
    ensures i <= j <= |f|
    ensures j < |f| ==> f[j] in Specifiers
    decreases |f| - i
  {
    if i == |f| || f[i] in Specifiers then i else ConversionEnd(f, i + 1)
  }

  /** No conversion-ending character comes before the first. */
  lemma {:induction false} ConversionEndFirst(f: string, i: nat)
    requires i <= |f|
    ensures forall m :: i <= m < ConversionEnd(f, i) ==> f[m] !in Specifiers
    decreases |f| - i
  {
    if i < |f| && f[i] !in Specifiers {
      ConversionEndFirst(f, i + 1);
    }
  }

  /** A literal segment for the text, none for empty text. */
  function Lit(s: string): seq<Segment>
  {
    if |s| > 0 then [Segment(s, Literal)] else []
  }

  /** Segments in front of a tokenizer result. */
  function Then(segs: seq<Segment>, r: Result<Formats, FormatError>): Result<Formats, FormatError>
  {
    match r
    case Ok(x) => Ok(Formats(segs + x.segs, x.dynamic))
    case Err(e) => Err(e)
  }

  /** One round of the tokenizer loop: the rest of the template is plain
      text, or a conversion fails, or some segments are emitted and
      tokenizing goes on after the conversion (sets: the conversion makes
      the file name dynamic). */
  datatype Step =
    | Done(segs: seq<Segment>)
    | Fail(spec: char)
    | Emit(head: seq<Segment>, rest: string, sets: bool)

  /** The text up to the first '%' is a literal; the conversion runs from
      that '%' to the first conversion-ending character (running into the
      end of the template is reported as '\0'); a conversion ending in
      '%' stands for a literal "%", an integer conversion is the
      iteration number when an 'l' comes just before its last character
      and the process id otherwise, a floating-point conversion is the
      time, and anything else is an error. */
  function Next(f: string): (r: Step)
    ensures r.Emit? ==> |r.rest| < |f|
  {
    var k := FirstPercent(f);
    if k == |f| then Done(Lit(f)) else NextAt(f, k, ConversionEnd(f, k + 1))
  }

  /** The round with its first '%' at k and the conversion's end at j. */
  function NextAt(f: string, k: nat, j: nat): (r: Step)
    requires k < j <= |f|
    ensures r.Emit? ==> |r.rest| < |f|
  {
    if j == |f| then Fail('\0') else Convert(f[..k], f[k..j + 1], f[j + 1..])
  }

  /** The round for text pre, then conversion conv, then rest; the
      character before the conversion's last one is the '%' itself when
      the conversion has nothing in between. */
  function Convert(pre: string, conv: string, rest: string): (r: Step)
    requires |conv| >= 2
    ensures r.Emit? ==> r.rest == rest
    ensures !r.Done?
  {
    var c := conv[|conv| - 1];
    if c == '%' then Emit(Lit(pre) + [Segment("%", Literal)], rest, false)
    else if c in IntConversions then
      if conv[|conv| - 2] == 'l' then Emit(Lit(pre) + [Segment(conv, Iter)], rest, true)
      else Emit(Lit(pre) + [Segment(conv, Pid)], rest, false)
    else if c in FloatConversions then Emit(Lit(pre) + [Segment(conv, Time)], rest, true)
    else Fail(c)
  }

  /** The tokenizer of gfs_output_read on template f with the dynamic flag
      so far, round by round. */
  function Tokenize(f: string, dynamic: bool): Result<Formats, FormatError>
    decreases |f|
  {
    match Next(f)
    case Done(segs) => Ok(Formats(segs, dynamic))
    case Fail(c) => Err(UnknownConversion(c, dynamic))
    case Emit(head, rest, sets) => Then(head, Tokenize(rest, dynamic || sets))
  }

  // ---------------------------------------------------------------------
  // The inner scan of the loop as written.

  /** The conversion's end read off the cursor: the first
      conversion-ending character after c. */
  lemma EndAt(f: string, start: nat, c: nat, j: nat)
    requires start <= c < j <= |f|
    requires forall m :: c < m < j ==> f[m] !in Specifiers
    requires j == |f| || f[j] in Specifiers
    ensures ConversionEnd(f[start..], c - start + 1) == j - start
  {
    var g := f[start..];
    assert j - start == |g| || g[j - start] in Specifiers;
    forall m | c - start < m < j - start ensures g[m] !in Specifiers {
      assert g[m] == f[start + m];
    }
    ConversionEndFirst(g, c - start + 1);
  }

  /** The inner loop: from the '%' at startf to the character that ends
      the conversion, remembering the one before it. */
  method ScanConversion(f: string, startf: nat) returns (c: nat, prev: nat)
    requires startf < |f|
    ensures c == ConversionEnd(f, startf + 1) && prev == c - 1
    ensures forall m :: startf < m < c ==> f[m] !in Specifiers
  {
    prev := startf;
    c := startf + 1;
    while c < |f| && f[c] !in Specifiers
      invariant startf < c <= |f|
      invariant prev == c - 1
      invariant forall m :: startf < m < c ==> f[m] !in Specifiers
    {
      prev := c;
      c := c + 1;
    }
    EndAt(f, 0, startf, c);
    assert f[0..] == f;
  }

  /** Where the file goes: the standard streams by name, or a file named
      by the template. */
  datatype Target = Stream(name: string) | File(formats: Formats)

  /** gfs_output_read on a format string: "stderr" and "stdout" name the
      streams, anything else is tokenized with the dynamic flag reset. */
  function ReadFormat(f: string): (r: Option<Target>)
    ensures r.Some? && r.value.Stream? <==> f == "stderr" || f == "stdout"
    ensures r.None? <==> Tokenize(f, false).Err?
    ensures r.None? <==> !Accepted(f)
  {
    TokenizeAccepts(f, false);
    assert f == "stderr" || f == "stdout" ==> '%' !in f;
    if f == "stderr" || f == "stdout" then Some(Stream(f))
    else match Tokenize(f, false)
      case Ok(x) => Some(File(x))
      case Err(_) => None
  }

  // ---------------------------------------------------------------------
  // What the segments look like.

  /** The shape of each segment the tokenizer emits: a literal is either
      the "%" of a '%'-ended conversion or non-empty text without '%'; a
      conversion starts with '%' and ends in a character of its type, an
      iteration conversion with an 'l' before that character and a
      process-id conversion without. */
  predicate WellFormed(g: Segment)
  {
    match g.t
    case Literal => g.s == "%" || (|g.s| > 0 && '%' !in g.s)
    case Iter =>
      |g.s| >= 3 && g.s[0] == '%' && NoSpecifier(g.s[1..|g.s| - 1]) &&
      g.s[|g.s| - 1] in IntConversions && g.s[|g.s| - 2] == 'l'
    case Pid =>
      |g.s| >= 2 && g.s[0] == '%' && NoSpecifier(g.s[1..|g.s| - 1]) &&
      g.s[|g.s| - 1] in IntConversions && (|g.s| == 2 || g.s[|g.s| - 2] != 'l')
    case Time =>
      |g.s| >= 2 && g.s[0] == '%' && NoSpecifier(g.s[1..|g.s| - 1]) &&
      g.s[|g.s| - 1] in FloatConversions
  }

  /** Text in which no character ends a conversion: what may stand
      between a conversion's '%' and its last character. */
  predicate NoSpecifier(s: string)
  {
    forall m :: 0 <= m < |s| ==> s[m] !in Specifiers
  }

  /** Segments whose text changes with the iteration or the time. */
  predicate Varies(g: Segment)
  {
    g.t == Iter || g.t == Time
  }

  predicate AllWellFormed(segs: seq<Segment>)
  {
    forall i :: 0 <= i < |segs| ==> WellFormed(segs[i])
  }

  predicate AnyVaries(segs: seq<Segment>)
  {
    exists i :: 0 <= i < |segs| && Varies(segs[i])
  }

  lemma Joined(a: seq<Segment>, b: seq<Segment>)
    ensures AllWellFormed(a + b) <==> AllWellFormed(a) && AllWellFormed(b)
    ensures AnyVaries(a + b) <==> AnyVaries(a) || AnyVaries(b)
  {
    if AllWellFormed(a) && AllWellFormed(b) {
      forall i | 0 <= i < |a + b| ensures WellFormed((a + b)[i]) {
        if i >= |a| {
          assert (a + b)[i] == b[i - |a|];
        }
      }
    }
    if AllWellFormed(a + b) {
      forall i | 0 <= i < |b| ensures WellFormed(b[i]) {
        assert (a + b)[|a| + i] == b[i];
      }
      forall i | 0 <= i < |a| ensures WellFormed(a[i]) {
        assert (a + b)[i] == a[i];
      }
    }
    if AnyVaries(b) {
      var i :| 0 <= i < |b| && Varies(b[i]);
      assert (a + b)[|a| + i] == b[i];
    }
    if AnyVaries(a) {
      var i :| 0 <= i < |a| && Varies(a[i]);
      assert (a + b)[i] == a[i];
    }
    if AnyVaries(a + b) {
      var i :| 0 <= i < |a + b| && Varies((a + b)[i]);
      if i >= |a| {
        assert (a + b)[i] == b[i - |a|];
      }
    }
  }

  /** Text without '%' gives at most one literal, well formed and not
      "%". */
  lemma LitShape(s: string)
    requires forall i :: 0 <= i < |s| ==> s[i] != '%'
    ensures AllWellFormed(Lit(s)) && !AnyVaries(Lit(s))
    ensures Segment("%", Literal) !in Lit(s)
  {
    if |s| > 0 {
      assert s[0] != '%';
      assert Lit(s)[0] == Segment(s, Literal);
    }
  }

  /** One round emits well-formed segments and turns the file name
      dynamic exactly when one of them is an iteration or time
      conversion; it fails only on a character that ends no known
      conversion. */
  lemma NextShape(f: string)
    ensures Next(f).Done? ==> AllWellFormed(Next(f).segs) && !AnyVaries(Next(f).segs)
    ensures Next(f).Emit? ==> AllWellFormed(Next(f).head) && (Next(f).sets <==> AnyVaries(Next(f).head))
    ensures Next(f).Fail? ==>
      Next(f).spec != '%' && Next(f).spec !in IntConversions && Next(f).spec !in FloatConversions
  {
    var k := FirstPercent(f);
    FirstPercentFirst(f);
    if k == |f| {
      LitShape(f);
    } else {
      var j := ConversionEnd(f, k + 1);
      if j < |f| {
        ConversionEndFirst(f, k + 1);
        NextConvert(f, k, j);
        NextShapeAt(f, k, j);
      }
    }
  }

  /** A round with a terminated conversion. */
  lemma NextConvert(f: string, k: nat, j: nat)
    requires k == FirstPercent(f) && k < |f| && j == ConversionEnd(f, k + 1) && j < |f|
    ensures Next(f) == Convert(f[..k], f[k..j + 1], f[j + 1..])
  {
    NextAtConvert(f, k, j);
  }

  lemma NextAtConvert(f: string, k: nat, j: nat)
    requires k < j < |f|
    ensures NextAt(f, k, j) == Convert(f[..k], f[k..j + 1], f[j + 1..])
  {
  }

  lemma NextShapeAt(f: string, k: nat, j: nat)
    requires k < j < |f| && f[k] == '%'
    requires forall i :: 0 <= i < k ==> f[i] != '%'
    requires forall m :: k < m < j ==> f[m] !in Specifiers
    ensures var step := Convert(f[..k], f[k..j + 1], f[j + 1..]);
      (step.Emit? ==> AllWellFormed(step.head) && (step.sets <==> AnyVaries(step.head))) &&
      (step.Fail? ==> step.spec != '%' && step.spec !in IntConversions && step.spec !in FloatConversions)
  {
    var pre, conv, rest := f[..k], f[k..j + 1], f[j + 1..];
    forall i | 0 <= i < |pre| ensures pre[i] != '%' {
      assert pre[i] == f[i];
    }
    assert |conv| >= 2 && conv[0] == '%';
    assert NoSpecifier(conv[1..|conv| - 1]) by {
      var mid := conv[1..|conv| - 1];
      assert mid == f[k + 1..j];
      forall m | 0 <= m < |mid| ensures mid[m] !in Specifiers {
        assert f[k + 1..j][m] == f[k + 1 + m];
      }
    }
    ConvertShape(pre, conv, rest);
  }

  lemma ConvertShape(pre: string, conv: string, rest: string)
    requires forall i :: 0 <= i < |pre| ==> pre[i] != '%'
    requires |conv| >= 2 && conv[0] == '%' && NoSpecifier(conv[1..|conv| - 1])
    ensures Convert(pre, conv, rest).Emit? ==>
      AllWellFormed(Convert(pre, conv, rest).head) &&
      (Convert(pre, conv, rest).sets <==> AnyVaries(Convert(pre, conv, rest).head))
    ensures Convert(pre, conv, rest).Fail? ==>
      var c := Convert(pre, conv, rest).spec;
      c != '%' && c !in IntConversions && c !in FloatConversions
  {
    LitShape(pre);
    var r := Convert(pre, conv, rest);
    if r.Emit? {
      var g := r.head[|r.head| - 1];
      assert r.head == Lit(pre) + [g];
      assert WellFormed(g);
      Joined(Lit(pre), [g]);
      assert [g][0] == g;
    }
  }

  /** Every segment is well formed, and the result is dynamic exactly
      when the flag already was or some segment is an iteration or time
      conversion; an error names a character that ends no known
      conversion. */
  lemma {:induction false} TokenizeShape(f: string, dynamic: bool)
    ensures Tokenize(f, dynamic).Ok? ==>
      AllWellFormed(Tokenize(f, dynamic).value.segs) &&
      (Tokenize(f, dynamic).value.dynamic <==> (dynamic || AnyVaries(Tokenize(f, dynamic).value.segs)))
    ensures Tokenize(f, dynamic).Err? ==>
      var c := Tokenize(f, dynamic).error.spec;
      c != '%' && c !in IntConversions && c !in FloatConversions
    decreases |f|
  {
    NextShape(f);
    match Next(f)
    case Done(_) =>
    case Fail(_) =>
    case Emit(head, rest, sets) =>
      TokenizeShape(rest, dynamic || sets);
      if Tokenize(rest, dynamic || sets).Ok? {
        Joined(head, Tokenize(rest, dynamic || sets).value.segs);
      }
  }

  // ---------------------------------------------------------------------
  // Which templates are accepted.

  /** The characters that end a conversion the tokenizer understands. */
  predicate Known(c: char)
  {
    c == '%' || c in IntConversions || c in FloatConversions
  }

  /** The templates of the grammar: text without '%', then either the
      end, or a conversion (its '%', characters that end no conversion,
      then one that ends a known conversion) followed by another template
      of the grammar. */
  ghost predicate Accepted(f: string)
    decreases |f|
  {
    '%' !in f ||
    exists k, j :: KnownConversion(f, k, j) && Accepted(f[j + 1..])
  }

  /** Every known conversion character ends a conversion. */
  lemma KnownEnds(c: char)
    requires Known(c)
    ensures c in Specifiers
  {
    if c in IntConversions {
      assert c in "diouxX" || c == 'c';
    } else if c in FloatConversions {
      assert c in "eEfFgGaA";
    }
  }

  /** f starts with text without '%', then a conversion from k to j
      that ends in a known character. */
  predicate KnownConversion(f: string, k: int, j: int)
  {
    0 <= k < j < |f| && '%' !in f[..k] && f[k] == '%' &&
    NoSpecifier(f[k + 1..j]) && Known(f[j])
  }

  /** A split of the grammar's shape is the one the tokenizer finds:
      its '%' is the first, and its end the first conversion-ending
      character after it. */
  lemma SplitUnique(f: string, k: nat, j: nat)
    requires k < j < |f| && '%' !in f[..k] && f[k] == '%'
    requires NoSpecifier(f[k + 1..j]) && f[j] in Specifiers
    ensures k == FirstPercent(f) && j == ConversionEnd(f, k + 1)
  {
    FirstPercentFirst(f);
    var fp := FirstPercent(f);
    assert forall i :: 0 <= i < k ==> f[i] != '%' by {
      forall i | 0 <= i < k ensures f[i] != '%' {
        assert f[..k][i] == f[i];
      }
    }
    assert fp == k;
    ConversionEndFirst(f, k + 1);
    var ce := ConversionEnd(f, k + 1);
    assert forall m :: k < m < j ==> f[m] !in Specifiers by {
      forall m | k < m < j ensures f[m] !in Specifiers {
        assert f[k + 1..j][m - k - 1] == f[m];
      }
    }
    assert ce == j;
  }

  /** Text up to the first '%' is free of it. */
  lemma BeforeFirstPercent(f: string)
    ensures '%' !in f[..FirstPercent(f)]
    ensures FirstPercent(f) == |f| ==> '%' !in f
  {
    FirstPercentFirst(f);
    var k := FirstPercent(f);
    forall i | 0 <= i < k ensures f[..k][i] != '%' {
      assert f[..k][i] == f[i];
    }
    assert k == |f| ==> f[..k] == f;
  }

  /** The text between a '%' and the end of its conversion. */
  lemma BeforeConversionEnd(f: string, k: nat)
    requires k < |f| && ConversionEnd(f, k + 1) < |f|
    ensures NoSpecifier(f[k + 1..ConversionEnd(f, k + 1)])
  {
    var j := ConversionEnd(f, k + 1);
    ConversionEndFirst(f, k + 1);
    var mid := f[k + 1..j];
    forall m | 0 <= m < |mid| ensures mid[m] !in Specifiers {
      assert mid[m] == f[k + 1 + m];
    }
  }

  /** When the first conversion is unterminated or ends in an unknown
      character, the template is outside the grammar. */
  lemma RejectedAt(f: string, k: nat, j: nat)
    requires k == FirstPercent(f) && k < |f| && j == ConversionEnd(f, k + 1)
    requires j == |f| || !Known(f[j])
    ensures !Accepted(f)
  {
    assert f[k] == '%';
    forall k2, j2 | KnownConversion(f, k2, j2) ensures false {
      KnownEnds(f[j2]);
      SplitUnique(f, k2, j2);
    }
  }

  /** When the first conversion ends in a known character, the template
      is in the grammar exactly when the text after the conversion is. */
  lemma AcceptedAfter(f: string, k: nat, j: nat)
    requires k == FirstPercent(f) && k < |f| && j == ConversionEnd(f, k + 1)
    requires j < |f| && Known(f[j])
    ensures Accepted(f) <==> Accepted(f[j + 1..])
  {
    assert f[k] == '%';
    forall k2, j2 | KnownConversion(f, k2, j2) ensures k2 == k && j2 == j {
      KnownEnds(f[j2]);
      SplitUnique(f, k2, j2);
    }
    BeforeFirstPercent(f);
    BeforeConversionEnd(f, k);
    assert KnownConversion(f, k, j);
  }

  /** The tokenizer succeeds exactly on the templates of the grammar: it
      fails exactly when the conversion it reaches ends in a character of
      no known conversion or runs into the end of the template. */
  lemma {:induction false} TokenizeAccepts(f: string, dynamic: bool)
    ensures Tokenize(f, dynamic).Ok? <==> Accepted(f)
    decreases |f|
  {
    var k := FirstPercent(f);
    if k == |f| {
      BeforeFirstPercent(f);
    } else {
      var j := ConversionEnd(f, k + 1);
      if j == |f| || !Known(f[j]) {
        assert !Accepted(f) by {
          RejectedAt(f, k, j);
        }
        TokenizeFails(f, dynamic, k, j);
      } else {
        assert Accepted(f) <==> Accepted(f[j + 1..]) by {
          AcceptedAfter(f, k, j);
        }
        TokenizeGoesOn(f, dynamic, k, j);
        TokenizeAccepts(f[j + 1..], dynamic || Next(f).sets);
      }
    }
  }

  /** The tokenizer fails on a first conversion that is unterminated or
      ends in an unknown character. */
  lemma TokenizeFails(f: string, dynamic: bool, k: nat, j: nat)
    requires k == FirstPercent(f) && k < |f| && j == ConversionEnd(f, k + 1)
    requires j == |f| || !Known(f[j])
    ensures Tokenize(f, dynamic).Err?
  {
    assert Next(f) == NextAt(f, k, j);
    if j < |f| {
      var conv := f[k..j + 1];
      assert conv[|conv| - 1] == f[j];
      assert NextAt(f, k, j) == Convert(f[..k], conv, f[j + 1..]);
    }
    assert Next(f).Fail?;
  }

  /** After a first conversion with a known end the tokenizer goes on
      with the text after it. */
  lemma TokenizeGoesOn(f: string, dynamic: bool, k: nat, j: nat)
    requires k == FirstPercent(f) && k < |f| && j == ConversionEnd(f, k + 1)
    requires j < |f| && Known(f[j])
    ensures Next(f).Emit? && Next(f).rest == f[j + 1..]
    ensures Tokenize(f, dynamic).Ok? <==> Tokenize(f[j + 1..], dynamic || Next(f).sets).Ok?
  {
    var conv := f[k..j + 1];
    assert conv[|conv| - 1] == f[j];
    assert Next(f) == Convert(f[..k], conv, f[j + 1..]) by {
      NextConvert(f, k, j);
    }
    assert Next(f).Emit?;
  }

  // ---------------------------------------------------------------------
  // Reassembling the template.

  /** The segment texts end to end. */
  function Concat(segs: seq<Segment>): string
    decreases |segs|
  {
    if segs == [] then [] else segs[0].s + Concat(segs[1..])
  }

  lemma {:induction false} ConcatAppend(a: seq<Segment>, b: seq<Segment>)
    ensures Concat(a + b) == Concat(a) + Concat(b)
    decreases |a|
  {
    if a == [] {
      assert a + b == b;
    } else {
      assert (a + b)[1..] == a[1..] + b;
      ConcatAppend(a[1..], b);
    }
  }

  lemma ConcatLit(s: string)
    ensures Concat(Lit(s)) == s
  {
    if |s| > 0 {
      assert Concat(Lit(s)) == s + Concat([]);
    }
  }

  /** One round keeps the template's text: the plain rest is its own
      literal, and an emitted round followed by the rest spells the
      template, except that a '%'-ended conversion shrinks to its "%". */
  lemma NextText(f: string)
    ensures Next(f).Done? ==> Concat(Next(f).segs) == f && Segment("%", Literal) !in Next(f).segs
    ensures Next(f).Emit? ==>
      (Segment("%", Literal) in Next(f).head ==> |Concat(Next(f).head)| + |Next(f).rest| < |f|) &&
      (Segment("%", Literal) !in Next(f).head ==> Concat(Next(f).head) + Next(f).rest == f)
  {
    var k := FirstPercent(f);
    FirstPercentFirst(f);
    if k == |f| {
      LitShape(f);
      ConcatLit(f);
    } else {
      var j := ConversionEnd(f, k + 1);
      if j < |f| {
        NextConvert(f, k, j);
        NextTextAt(f, k, j);
      }
    }
  }

  lemma NextTextAt(f: string, k: nat, j: nat)
    requires k < j < |f|
    requires forall i :: 0 <= i < k ==> f[i] != '%'
    ensures var step := Convert(f[..k], f[k..j + 1], f[j + 1..]);
      step.Emit? ==>
      (Segment("%", Literal) in step.head ==> |Concat(step.head)| + |step.rest| < |f|) &&
      (Segment("%", Literal) !in step.head ==> Concat(step.head) + step.rest == f)
  {
    var pre, conv, rest := f[..k], f[k..j + 1], f[j + 1..];
    forall i | 0 <= i < |pre| ensures pre[i] != '%' {
      assert pre[i] == f[i];
    }
    ConvertText(pre, conv, rest);
    assert f == pre + conv + rest;
  }

  lemma ConvertText(pre: string, conv: string, rest: string)
    requires forall i :: 0 <= i < |pre| ==> pre[i] != '%'
    requires |conv| >= 2
    ensures Convert(pre, conv, rest).Emit? ==>
      (Segment("%", Literal) in Convert(pre, conv, rest).head ==>
        |Concat(Convert(pre, conv, rest).head)| < |pre| + |conv|) &&
      (Segment("%", Literal) !in Convert(pre, conv, rest).head ==>
        Concat(Convert(pre, conv, rest).head) == pre + conv)
  {
    var r := Convert(pre, conv, rest);
    if r.Emit? {
      var g := r.head[|r.head| - 1];
      assert r.head == Lit(pre) + [g];
      LitShape(pre);
      ConcatLit(pre);
      ConcatAppend(Lit(pre), [g]);
      assert Concat([g]) == g.s + Concat([]);
    }
  }

  /** The segments keep the template's order: their texts put end to end
      give back the template exactly when no conversion ends in '%' (each
      such conversion is shortened to its "%"). */
  lemma {:induction false} TokenizeRoundTrip(f: string, dynamic: bool)
    requires Tokenize(f, dynamic).Ok?
    ensures Segment("%", Literal) !in Tokenize(f, dynamic).value.segs ==>
      Concat(Tokenize(f, dynamic).value.segs) == f
    ensures Segment("%", Literal) in Tokenize(f, dynamic).value.segs ==>
      |Concat(Tokenize(f, dynamic).value.segs)| < |f|
    decreases |f|
  {
    NextText(f);
    match Next(f)
    case Done(_) =>
    case Emit(head, rest, sets) =>
      var tail := Tokenize(rest, dynamic || sets).value.segs;
      TokenizeRoundTrip(rest, dynamic || sets);
      TokenizeLength(rest, dynamic || sets);
      ConcatAppend(head, tail);
      assert Segment("%", Literal) in head + tail <==>
        Segment("%", Literal) in head || Segment("%", Literal) in tail;
  }

  /** The file-name text never grows past the template. */
  lemma {:induction false} TokenizeLength(f: string, dynamic: bool)
    requires Tokenize(f, dynamic).Ok?
    ensures |Concat(Tokenize(f, dynamic).value.segs)| <= |f|
    decreases |f|
  {
    NextText(f);
    match Next(f)
    case Done(_) =>
    case Emit(head, rest, sets) =>
      TokenizeLength(rest, dynamic || sets);
      ConcatAppend(head, Tokenize(rest, dynamic || sets).value.segs);
  }

  // ---------------------------------------------------------------------
  // format_string.

  /** format_string: the segments rendered in order; a literal is copied,
      and a conversion is printed with the process id, the iteration
      number or the time (printf itself is given as printInt and
      printReal). */
  function FormatString(segs: seq<Segment>, pid: int, niter: nat, time: real,
                        printInt: (string, int) -> string,
                        printReal: (string, real) -> string): string
    decreases |segs|
  {
    if segs == [] then []
    else
      var g := segs[0];
      var s := match g.t
        case Literal => g.s
        case Pid => printInt(g.s, pid)
        case Iter => printInt(g.s, niter)
        case Time => printReal(g.s, time);
      s + FormatString(segs[1..], pid, niter, time, printInt, printReal)
  }

  /** With literal segments only the file name is their concatenation,
      whatever the process id, iteration, time or printf. */
  lemma {:induction false} FormatLiterals(segs: seq<Segment>, pid: int, niter: nat, time: real,
                                          printInt: (string, int) -> string,
                                          printReal: (string, real) -> string)
    requires forall i :: 0 <= i < |segs| ==> segs[i].t == Literal
    ensures FormatString(segs, pid, niter, time, printInt, printReal) == Concat(segs)
    decreases |segs|
  {
    if segs != [] {
      FormatLiterals(segs[1..], pid, niter, time, printInt, printReal);
    }
  }

  /** A template without '%' names one fixed file: itself. */
  lemma PlainTemplate(f: string, pid: int, niter: nat, time: real,
                      printInt: (string, int) -> string,
                      printReal: (string, real) -> string)
    requires '%' !in f
    ensures Tokenize(f, false) == Ok(Formats(Lit(f), false))
    ensures FormatString(Lit(f), pid, niter, time, printInt, printReal) == f
  {
    if |f| > 0 {
      assert FormatString(Lit(f), pid, niter, time, printInt, printReal) == f + [];
    }
  }
}
