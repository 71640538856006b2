/** The template parser of the enrollment-profile stack: a global replace of
    the placeholder matcher over the whole template. Matches are looked for
    left to right; after a match the scan resumes right behind it, otherwise
    one character is copied and the scan moves on by one. Each match is
    replaced by the lookup value of its captured name, inserted verbatim. */
module TemplateParser {
  import opened Placeholder

  /** One piece of a scanned template: a character copied as it stands, or a
      matched placeholder with its captured name and its original text. */
  datatype Piece = Literal(c: char) | Field(name: string, raw: string)

  datatype TemplateError = MissingKey(name: string)

  datatype Result<T> = Ok(value: T) | Err(error: TemplateError)

  /** The scan of a template into pieces. */
  function Tokenize(s: string): (ps: seq<Piece>)
    ensures forall k :: 0 <= k < |ps| && ps[k].Field? ==> IsPlaceholder(ps[k].raw, ps[k].name)
    decreases |s|
  {
    if |s| == 0 then []
    else
      match MatchPrefix(s)
      case Some(m) =>
        MatchExact(s, m.name, m.length);
        [Field(m.name, s[..m.length])] + Tokenize(s[m.length..])
      case None =>
        [Literal(s[0])] + Tokenize(s[1..])
  }

  /** The template text a piece was scanned from. */
  function Raw(p: Piece): string {
    match p
    case Literal(c) => [c]
    case Field(_, raw) => raw
  }

  /** The template text a sequence of pieces was scanned from. */
  function Source(ps: seq<Piece>): string {
    if ps == [] then "" else Raw(ps[0]) + Source(ps[1..])
  }

  /** The captured names of the placeholders, in template order. */
  function FieldNames(ps: seq<Piece>): seq<string> {
    if ps == [] then []
    else (if ps[0].Field? then [ps[0].name] else []) + FieldNames(ps[1..])
  }

  /** The placeholder names of a template, in order of appearance. */
  function Names(s: string): seq<string> {
    FieldNames(Tokenize(s))
  }

  /** What the replacement callback yields for a name: the lookup value, or,
      for a name the lookup does not hold, the text that the JavaScript
      string conversion gives the undefined value. */
  function Value(lookup: map<string, string>, name: string): string {
    if name in lookup then lookup[name] else "undefined"
  }

  /** The output of one piece. */
  function Out(p: Piece, lookup: map<string, string>): string {
    match p
    case Literal(c) => [c]
    case Field(name, _) => Value(lookup, name)
  }

  function Fill(ps: seq<Piece>, lookup: map<string, string>): string {
    if ps == [] then "" else Out(ps[0], lookup) + Fill(ps[1..], lookup)
  }

  /** The template parser: every match replaced by its lookup value. The
      output is the replacement of a left-to-right, non-overlapping scan of
      the template, and of every such scan. */
  function Render(s: string, lookup: map<string, string>): (r: string)
    ensures exists ps :: IsScan(ps, s) && r == Fill(ps, lookup)
    ensures forall ps :: IsScan(ps, s) ==> r == Fill(ps, lookup)
  {
    TokenizeIsScan(s);
    TokenizeOnlyScan(s);
    Fill(Tokenize(s), lookup)
  }

  /** A strict variant, kept apart from Render: the first placeholder whose
      name the lookup does not hold is reported instead of being replaced. */
  function FillStrict(ps: seq<Piece>, lookup: map<string, string>): (r: Result<string>)
    ensures r.Ok? <==> forall n :: n in FieldNames(ps) ==> n in lookup
    ensures r.Ok? ==> r.value == Fill(ps, lookup)
    ensures r.Err? ==> r.error.name in FieldNames(ps) && r.error.name !in lookup
  {
    if ps == [] then Ok("")
    else if ps[0].Field? && ps[0].name !in lookup then Err(MissingKey(ps[0].name))
    else
      match FillStrict(ps[1..], lookup)
      case Err(e) => Err(e)
      case Ok(v) => Ok(Out(ps[0], lookup) + v)
  }

  function RenderStrict(s: string, lookup: map<string, string>): (r: Result<string>)
    ensures r.Ok? <==> forall n :: n in Names(s) ==> n in lookup
    ensures r.Ok? ==> r.value == Render(s, lookup)
    ensures r.Err? ==> r.error.name in Names(s) && r.error.name !in lookup
  {
    FillStrict(Tokenize(s), lookup)
  }

  // ---------------------------------------------------------------------
  // A declarative description of the scan

  /** Piece p is what the scan produces at a position whose remaining text is t:
      a literal where no placeholder starts, a field where one does. */
  ghost predicate Agrees(p: Piece, t: string) {
    match p
    case Literal(c) => |t| > 0 && t[0] == c && MatchPrefix(t) == None
    case Field(name, raw) => MatchPrefix(t) == Some(Match(name, |raw|)) && raw == t[..|raw|]
  }

  /** Where piece k of ps starts in the text the pieces were scanned from. */
  function Offset(ps: seq<Piece>, k: nat): nat
    requires k <= |ps|
  {
    |Source(ps[..k])|
  }

  /** Piece k of ps agrees with the text of s at its offset. */
  ghost predicate AgreesAt(ps: seq<Piece>, s: string, k: nat)
    requires k < |ps|
  {
    Offset(ps, k) <= |s| && Agrees(ps[k], s[Offset(ps, k)..])
  }

  /** ps is a left-to-right, non-overlapping scan of s: the pieces spell s in
      order, and each piece agrees with the text at its own offset. */
  ghost predicate IsScan(ps: seq<Piece>, s: string) {
    Source(ps) == s && forall k :: 0 <= k < |ps| ==> AgreesAt(ps, s, k)
  }

  lemma SourceCons(p: Piece, q: seq<Piece>)
    ensures Source([p] + q) == Raw(p) + Source(q)
  {
    assert ([p] + q)[1..] == q;
  }

  lemma FillCons(p: Piece, q: seq<Piece>, lookup: map<string, string>)
    ensures Fill([p] + q, lookup) == Out(p, lookup) + Fill(q, lookup)
  {
    assert ([p] + q)[1..] == q;
  }

  lemma FieldNamesCons(p: Piece, q: seq<Piece>)
    ensures FieldNames([p] + q) == (if p.Field? then [p.name] else []) + FieldNames(q)
  {
    assert ([p] + q)[1..] == q;
  }

  /** Offsets in a scan that starts with p are offsets in the rest, shifted by p's text. */
  lemma OffsetCons(p: Piece, q: seq<Piece>, k: nat)
    requires k <= |q|
    ensures Offset([p] + q, k + 1) == |Raw(p)| + Offset(q, k)
  {
    assert ([p] + q)[..k + 1] == [p] + q[..k];
    SourceCons(p, q[..k]);
  }

  /** Piece k + 1 of [p] + q agrees with s exactly when piece k of q agrees
      with the text of s behind p. */
  lemma AgreesAtCons(p: Piece, q: seq<Piece>, s: string, k: nat)
    requires k < |q| && |Raw(p)| <= |s|
    ensures AgreesAt([p] + q, s, k + 1) <==> AgreesAt(q, s[|Raw(p)|..], k)
  {
    var n, o := |Raw(p)|, Offset(q, k);
    OffsetCons(p, q, k);
    assert ([p] + q)[k + 1] == q[k];
    if n + o <= |s| {
      assert s[n + o..] == s[n..][o..];
    }
  }

  /** A scan of s that begins with p continues with a scan of the text behind p. */
  lemma ScanTail(p: Piece, q: seq<Piece>, s: string)
    requires IsScan([p] + q, s)
    ensures |Raw(p)| <= |s| && s[..|Raw(p)|] == Raw(p) && IsScan(q, s[|Raw(p)|..])
  {
    var n := |Raw(p)|;
    SourceCons(p, q);
    assert s[..n] == Raw(p) && s[n..] == Source(q);
    forall k | 0 <= k < |q| ensures AgreesAt(q, s[n..], k) {
      assert AgreesAt([p] + q, s, k + 1);
      AgreesAtCons(p, q, s, k);
    }
  }

  /** A piece agreeing with s followed by a scan of the text behind it is a scan of s. */
  lemma ScanExtend(p: Piece, q: seq<Piece>, s: string)
    requires Agrees(p, s)
    requires |Raw(p)| <= |s| && s[..|Raw(p)|] == Raw(p) && IsScan(q, s[|Raw(p)|..])
    ensures IsScan([p] + q, s)
  {
    var ps := [p] + q;
    var n := |Raw(p)|;
    SourceCons(p, q);
    assert s == Raw(p) + s[n..];
    forall k | 0 <= k < |ps| ensures AgreesAt(ps, s, k) {
      if k == 0 {
        assert ps[..0] == [];
      } else {
        assert AgreesAt(q, s[n..], k - 1);
        AgreesAtCons(p, q, s, k - 1);
      }
    }
  }

  /** The scan of a non-empty template: its first piece and where it resumes. */
  lemma TokenizeCons(s: string)
    requires |s| > 0
    ensures |Tokenize(s)| > 0 && Agrees(Tokenize(s)[0], s)
    ensures Tokenize(s) == [Tokenize(s)[0]] + Tokenize(s[|Raw(Tokenize(s)[0])|..])
    ensures s[..|Raw(Tokenize(s)[0])|] == Raw(Tokenize(s)[0])
  {
  }

  /** The parser's scan is a scan in the declarative sense. */
  lemma {:induction false} TokenizeIsScan(s: string)
    ensures IsScan(Tokenize(s), s)
    decreases |s|
  {
    if |s| > 0 {
      TokenizeCons(s);
      var p := Tokenize(s)[0];
      var n := |Raw(p)|;
      TokenizeIsScan(s[n..]);
      ScanExtend(p, Tokenize(s[n..]), s);
    }
  }

  /** And it is the only one: any left-to-right scan of s is the parser's. */
  lemma {:induction false} ScanUnique(ps: seq<Piece>, s: string)
    requires IsScan(ps, s)
    ensures ps == Tokenize(s)
    decreases |ps|
  {
    if ps != [] {
      var p, q := ps[0], ps[1..];
      assert ps == [p] + q;
      assert AgreesAt(ps, s, 0);
      assert ps[..0] == [];
      assert Agrees(p, s);
      ScanTail(p, q, s);
      var n := |Raw(p)|;
      ScanUnique(q, s[n..]);
      TokenizeCons(s);
      match p
      case Literal(c) =>
      case Field(name, raw) =>
    } else {
      assert s == Source(ps) == "";
    }
  }

  lemma TokenizeOnlyScan(s: string)
    ensures forall ps :: IsScan(ps, s) ==> ps == Tokenize(s)
  {
    forall ps | IsScan(ps, s) ensures ps == Tokenize(s) {
      ScanUnique(ps, s);
    }
  }

  /** Every character of the template is accounted for, in order. */
  lemma TokenizeSource(s: string)
    ensures Source(Tokenize(s)) == s
  {
    TokenizeIsScan(s);
  }

  // ---------------------------------------------------------------------
  // Rendering

  /** A placeholder spelled the grammar's way is replaced by the lookup
      value of its name, verbatim, and the scan resumes right behind it:
      the value itself is never scanned for placeholders. */
  lemma RenderPlaceholder(w1: string, name: string, w2: string, rest: string, lookup: map<string, string>)
    requires IsOptWs(w1) && IsName(name) && IsOptWs(w2)
    ensures Render(Text(w1, name, w2) + rest, lookup) == Value(lookup, name) + Render(rest, lookup)
  {
    var s := Text(w1, name, w2) + rest;
    MatchComplete(w1, name, w2, rest);
    var n := |Text(w1, name, w2)|;
    assert s[n..] == rest;
    FillCons(Field(name, s[..n]), Tokenize(rest), lookup);
  }

  /** A name the lookup does not hold is not an error: its placeholder is
      consumed and replaced by the text "undefined". */
  lemma RenderMissingName(w1: string, name: string, w2: string, rest: string, lookup: map<string, string>)
    requires IsOptWs(w1) && IsName(name) && IsOptWs(w2)
    requires name !in lookup
    ensures Render(Text(w1, name, w2) + rest, lookup) == "undefined" + Render(rest, lookup)
  {
    RenderPlaceholder(w1, name, w2, rest, lookup);
  }

  /** Where no placeholder starts, one character is copied and the scan moves on by one. */
  lemma RenderUnmatched(s: string, lookup: map<string, string>)
    requires |s| > 0 && MatchPrefix(s) == None
    ensures Render(s, lookup) == [s[0]] + Render(s[1..], lookup)
  {
    FillCons(Literal(s[0]), Tokenize(s[1..]), lookup);
  }

  /** Text without '{' is copied unchanged, whatever follows it. */
  lemma {:induction false} RenderBraceFree(a: string, rest: string, lookup: map<string, string>)
    requires '{' !in a
    ensures Render(a + rest, lookup) == a + Render(rest, lookup)
    decreases |a|
  {
    if a != [] {
      var s := a + rest;
      assert s[0] == a[0];
      assert MatchPrefix(s) == None;
      assert s[1..] == a[1..] + rest;
      RenderBraceFree(a[1..], rest, lookup);
      FillCons(Literal(a[0]), Tokenize(s[1..]), lookup);
      assert a == [a[0]] + a[1..];
    } else {
      assert a + rest == rest;
    }
  }

  /** A template in which "{{" never occurs is returned unchanged. */
  lemma {:induction false} RenderWithoutOpening(s: string, lookup: map<string, string>)
    requires forall i :: 0 <= i < |s| - 1 ==> !(s[i] == '{' && s[i + 1] == '{')
    ensures Render(s, lookup) == s
    decreases |s|
  {
    if s != [] {
      assert MatchPrefix(s) == None;
      RenderWithoutOpening(s[1..], lookup);
      FillCons(Literal(s[0]), Tokenize(s[1..]), lookup);
      assert s == [s[0]] + s[1..];
    }
  }

  /** The output depends on the lookup only through the values of the names
      the template actually uses. */
  lemma {:induction false} FillLocal(ps: seq<Piece>, l1: map<string, string>, l2: map<string, string>)
    requires forall n :: n in FieldNames(ps) ==> Value(l1, n) == Value(l2, n)
    ensures Fill(ps, l1) == Fill(ps, l2)
    decreases |ps|
  {
    if ps != [] {
      FieldNamesCons(ps[0], ps[1..]);
      assert ps == [ps[0]] + ps[1..];
      FillLocal(ps[1..], l1, l2);
    }
  }

  lemma RenderLocal(s: string, l1: map<string, string>, l2: map<string, string>)
    requires forall n :: n in Names(s) ==> Value(l1, n) == Value(l2, n)
    ensures Render(s, l1) == Render(s, l2)
  {
    FillLocal(Tokenize(s), l1, l2);
  }

  /** names[k] is the first of names that the lookup does not hold. */
  ghost predicate FirstMissingAt(names: seq<string>, lookup: map<string, string>, k: nat) {
    k < |names| && names[k] !in lookup && forall j :: 0 <= j < k ==> names[j] in lookup
  }

  lemma FirstMissingAtCons(n: string, names: seq<string>, lookup: map<string, string>, k: nat)
    requires n in lookup && FirstMissingAt(names, lookup, k)
    ensures FirstMissingAt([n] + names, lookup, k + 1) && ([n] + names)[k + 1] == names[k]
  {
    var all := [n] + names;
    forall j | 0 <= j < k + 1 ensures all[j] in lookup {
      if j > 0 {
        assert all[j] == names[j - 1];
      }
    }
  }

  /** The strict variant reports the FIRST placeholder whose name is missing. */
  lemma {:induction false} FillStrictFirstMissing(ps: seq<Piece>, lookup: map<string, string>)
    requires FillStrict(ps, lookup).Err?
    ensures exists k: nat :: FirstMissingAt(FieldNames(ps), lookup, k)
                        && FieldNames(ps)[k] == FillStrict(ps, lookup).error.name
    decreases |ps|
  {
    var e := FillStrict(ps, lookup).error;
    var p, q := ps[0], ps[1..];
    FieldNamesCons(p, q);
    assert ps == [p] + q;
    if p.Field? && p.name !in lookup {
      assert FirstMissingAt(FieldNames(ps), lookup, 0);
    } else {
      assert FillStrict(q, lookup) == Err(e);
      FillStrictFirstMissing(q, lookup);
      var k: nat :| FirstMissingAt(FieldNames(q), lookup, k) && FieldNames(q)[k] == e.name;
      if p.Field? {
        FirstMissingAtCons(p.name, FieldNames(q), lookup, k);
      } else {
        assert FieldNames(ps) == FieldNames(q);
      }
    }
  }

  // ---------------------------------------------------------------------
  // Examples

  /** A value that itself looks like a placeholder appears verbatim. */
  lemma ValueNotRescanned()
    ensures Render("{{X}}", map["X" := "{{X}}"]) == "{{X}}"
  {
    RenderPlaceholder("", "X", "", "", map["X" := "{{X}}"]);
    assert Text("", "X", "") + "" == "{{X}}";
  }

  /** After "{{", the optional whitespace and a name, a whitespace character
      followed by a name character holds no '{'. */
  lemma RejectedBodyBraceFree(w1: string, a: string, c: char, d: char)
    requires IsOptWs(w1) && IsName(a) && IsWs(c) && IsNameChar(d)
    ensures '{' !in w1 + (a + [c, d])
  {
    BracesNotWs();
    var body := w1 + (a + [c, d]);
    forall i | 0 <= i < |body| ensures body[i] != '{' {
      if i < |w1| {
        assert body[i] == w1[i];
      } else if i < |w1| + |a| {
        assert body[i] == a[i - |w1|];
      }
    }
  }

  /** A '{' that does not start a match is copied and the scan moves on by one. */
  lemma RenderOpenBrace(x: string, lookup: map<string, string>)
    requires MatchPrefix("{" + x) == None
    ensures Render("{" + x, lookup) == "{" + Render(x, lookup)
  {
    var s := "{" + x;
    RenderUnmatched(s, lookup);
    assert s[1..] == x;
  }

  lemma TwoBraces(x: string)
    ensures "{" + ("{" + x) == "{{" + x
  {
  }

  /** A single '{' followed by anything other than '{' never starts a match. */
  lemma SingleBraceRejected(x: string)
    requires |x| > 0 && x[0] != '{'
    ensures MatchPrefix("{" + x) == None
  {
    assert ("{" + x)[1] == x[0];
  }

  /** "{{" that starts no match, before text starting with something other
      than '{', is copied and the scan moves on behind it. */
  lemma RenderOpenNoMatch(x: string, lookup: map<string, string>)
    requires |x| > 0 && x[0] != '{' && MatchPrefix("{{" + x) == None
    ensures Render("{{" + x, lookup) == "{{" + Render(x, lookup)
  {
    SingleBraceRejected(x);
    RenderOpenBrace(x, lookup);
    TwoBraces(x);
    RenderOpenBrace("{" + x, lookup);
    TwoBraces(Render(x, lookup));
  }

  /** Such a text, as in  {{ a b }}  or  {{  a}}  (when the leading slot or
      the name is non-empty), is copied unchanged, whatever follows it. */
  lemma RenderRejected(w1: string, a: string, c: char, d: char, rest: string, lookup: map<string, string>)
    requires IsOptWs(w1) && IsName(a) && |w1| + |a| > 0
    requires IsWs(c) && IsNameChar(d)
    ensures var body := w1 + (a + [c, d]);
      Render("{{" + (body + rest), lookup) == "{{" + (body + Render(rest, lookup))
  {
    var body := w1 + (a + [c, d]);
    RejectedBodyBraceFree(w1, a, c, d);
    assert (body + rest)[0] == body[0];
    InnerWhitespaceRejected(w1, a, c, d, rest);
    RenderOpenNoMatch(body + rest, lookup);
    RenderBraceFree(body, rest, lookup);
  }

  /** "{{" before text starting with "{{" is copied: a brace two positions
      further on stops both of its characters from starting a match. */
  lemma RenderBeforeOpen(y: string, lookup: map<string, string>)
    requires |y| >= 2 && y[0] == '{' && y[1] == '{'
    ensures Render("{{" + y, lookup) == "{{" + Render(y, lookup)
  {
    var s1 := "{" + y;
    assert s1[2] == y[1];
    BraceAfterOpenRejected(s1);
    RenderOpenBrace(y, lookup);
    var s0 := "{" + s1;
    assert s0[2] == y[0];
    BraceAfterOpenRejected(s0);
    RenderOpenBrace(s1, lookup);
    TwoBraces(y);
    TwoBraces(Render(y, lookup));
  }

  /** Literal braces around a match meet the replacement in the output and
      can spell a placeholder there: the output is never scanned again. */
  lemma OutputNotRescanned(name: string, lookup: map<string, string>)
    requires IsName(name)
    ensures Render("{{" + (Text("", name, "") + "}}"), lookup) == "{{" + (Value(lookup, name) + "}}")
  {
    var close: string := "}}";
    var u := Text("", name, "");
    assert (u + close)[0] == '{' && (u + close)[1] == '{';
    RenderBeforeOpen(u + close, lookup);
    RenderPlaceholder("", name, "", close, lookup);
    RenderBraceFree(close, "", lookup);
    assert close + "" == close && Render("", lookup) == "";
  }
}
