/** SMS templates: placeholders {{ name }} replaced by values, refused if any is left. */
module Template {
  import opened Common
  import Text

  // The regular expression's \s and its word class [a-zA-Z0-9_].
  predicate IsBlank(c: char) {
    c in {'\t', '\n', '\U{000C}', '\r', ' '}
  }

  predicate IsWord(c: char) {
    'a' <= c <= 'z' || 'A' <= c <= 'Z' || '0' <= c <= '9' || c == '_'
  }

  // The two classes by their code points.
  lemma ClassCodes(c: char)
    ensures IsBlank(c) <==> c as int in {9, 10, 12, 13, 32}
    ensures IsWord(c) <==> var n := c as int; 48 <= n <= 57 || 65 <= n <= 90 || n == 95 || 97 <= n <= 122
  {
  }

  function SkipBlanks(s: string, i: nat): (r: nat)
    requires i <= |s|
    ensures i <= r <= |s| && (forall k :: i <= k < r ==> IsBlank(s[k])) && (r < |s| ==> !IsBlank(s[r]))
    decreases |s| - i
  {
    if i < |s| && IsBlank(s[i]) then SkipBlanks(s, i + 1) else i
  }

  function SkipWord(s: string, i: nat): (r: nat)
    requires i <= |s|
    ensures i <= r <= |s| && (forall k :: i <= k < r ==> IsWord(s[k])) && (r < |s| ==> !IsWord(s[r]))
    decreases |s| - i
  {
    if i < |s| && IsWord(s[i]) then SkipWord(s, i + 1) else i
  }

  // ---- templates as lists of segments ----

  datatype Segment = Literal(text: string) | Placeholder(lead: string, name: string, trail: string)

  predicate WellFormed(seg: Segment) {
    seg.Placeholder? ==>
      && seg.name != "" && (forall c :: c in seg.name ==> IsWord(c))
      && (forall c :: c in seg.lead ==> IsBlank(c)) && (forall c :: c in seg.trail ==> IsBlank(c))
  }

  function PrintSegment(seg: Segment): string {
    match seg
    case Literal(text) => text
    case Placeholder(lead, name, trail) => "{{" + lead + name + trail + "}}"
  }

  function Print(segs: seq<Segment>): string {
    if segs == [] then "" else PrintSegment(segs[0]) + Print(segs[1..])
  }

  // ---- the regular expression, and the replacement of its leftmost matches ----

  // A placeholder at the start of s.
  function MatchPrefix(s: string): (m: Option<Segment>)
    ensures m.Some? ==> m.value.Placeholder? && 5 <= |PrintSegment(m.value)| <= |s|
  {
    if !("{{" <= s) then None
    else
      var a := SkipBlanks(s, 2);
      var b := SkipWord(s, a);
      var c := SkipBlanks(s, b);
      if a < b && c + 2 <= |s| && s[c..c + 2] == "}}" then Some(Placeholder(s[2..a], s[a..b], s[b..c])) else None
  }

  // ReplaceAllStringFunc: leftmost matches, each replaced by its value or left as it is.
  function ReplaceAll(s: string, vars: map<string, string>): string
    decreases |s|
  {
    if s == [] then []
    else match MatchPrefix(s)
      case None => [s[0]] + ReplaceAll(s[1..], vars)
      case Some(m) =>
        var n := |PrintSegment(m)|;
        (if m.name in vars then vars[m.name] else s[..n]) + ReplaceAll(s[n..], vars)
  }

  predicate Contains(s: string, pair: string)
    requires |pair| == 2
  {
    exists k :: 0 <= k < |s| - 1 && s[k] == pair[0] && s[k + 1] == pair[1]
  }

  datatype Error = TemplateRequired | Unresolved

  function RenderTemplate(template: string, vars: map<string, string>): Result<string, Error> {
    var t := Text.TrimSpace(template);
    if t == "" then Err(TemplateRequired)
    else
      var out := ReplaceAll(t, vars);
      if Contains(out, "{{") && Contains(out, "}}") then Err(Unresolved) else Ok(out)
  }

  // ---- the meaning of a template ----

  // The intended output; a placeholder without a value stands for itself.
  function Value(seg: Segment, vars: map<string, string>): string {
    if seg.Placeholder? && seg.name in vars then vars[seg.name] else PrintSegment(seg)
  }

  function Values(segs: seq<Segment>, vars: map<string, string>): string {
    if segs == [] then "" else Value(segs[0], vars) + Values(segs[1..], vars)
  }

  predicate NoBraces(s: string) {
    '{' !in s && '}' !in s
  }

  predicate Resolved(segs: seq<Segment>, vars: map<string, string>) {
    forall seg :: seg in segs && seg.Placeholder? ==> seg.name in vars
  }

  lemma BlanksEnd(s: string, i: nat, r: nat)
    requires i <= r < |s| && (forall k :: i <= k < r ==> IsBlank(s[k])) && !IsBlank(s[r])
    ensures SkipBlanks(s, i) == r
  {
  }

  lemma WordEnds(s: string, i: nat, r: nat)
    requires i <= r < |s| && (forall k :: i <= k < r ==> IsWord(s[k])) && !IsWord(s[r])
    ensures SkipWord(s, i) == r
  {
  }

  lemma WithinFirst(x: string, y: string, i: nat, j: nat)
    requires i <= j <= |x|
    ensures (x + y)[i..j] == x[i..j]
  {
  }

  // A part keeps its place in whatever is written after it.
  lemma Part(before: string, part: string, whole: string, rest: string)
    requires before + part <= whole
    ensures (whole + rest)[|before|..|before + part|] == part
  {
    assert whole[..|before + part|] == before + part;
    WithinFirst(whole, rest, |before|, |before + part|);
    assert whole[|before|..|before + part|] == (before + part)[|before|..];
  }

  lemma Joined(s: string, i: nat, j: nat)
    requires i <= j <= |s|
    ensures s[..i] + s[i..j] == s[..j]
  {
  }

  // A slice holds only blanks, or only word characters, exactly when its positions do.
  lemma SliceClass(s: string, i: nat, j: nat)
    requires i <= j <= |s|
    ensures (forall c :: c in s[i..j] ==> IsBlank(c)) <==> (forall k :: i <= k < j ==> IsBlank(s[k]))
    ensures (forall c :: c in s[i..j] ==> IsWord(c)) <==> (forall k :: i <= k < j ==> IsWord(s[k]))
  {
    hide IsBlank, IsWord;
    assert forall k :: i <= k < j ==> s[k] == s[i..j][k - i] && s[k] in s[i..j];
    forall c | c in s[i..j] ensures exists k :: i <= k < j && s[k] == c {
      var n :| 0 <= n < j - i && s[i..j][n] == c;
      assert s[i + n] == c;
    }
  }

  // Where the parts of a printed placeholder lie, whatever follows it.
  lemma PlaceholderLayout(seg: Segment, rest: string) returns (a: nat, b: nat, c: nat)
    requires seg.Placeholder?
    ensures var s := PrintSegment(seg) + rest;
            && 2 <= a <= b <= c && c + 2 == |PrintSegment(seg)| && s[..2] == "{{" && s[c..c + 2] == "}}"
            && s[2..a] == seg.lead && s[a..b] == seg.name && s[b..c] == seg.trail
  {
    var braces := "{{";
    var led := braces + seg.lead;
    var named := led + seg.name;
    var trailed := named + seg.trail;
    var closed := trailed + "}}";
    a, b, c := |led|, |named|, |trailed|;
    assert PrintSegment(seg) == closed;
    Part(braces, seg.lead, closed, rest);
    Part(led, seg.name, closed, rest);
    Part(named, seg.trail, closed, rest);
    Part(trailed, "}}", closed, rest);
    Part("", braces, closed, rest);
  }

  lemma PlaceholderMatches(seg: Segment, rest: string)
    requires WellFormed(seg) && seg.Placeholder?
    ensures MatchPrefix(PrintSegment(seg) + rest) == Some(seg)
  {
    hide SkipBlanks, SkipWord, PrintSegment, IsBlank, IsWord;
    var a, b, c := PlaceholderLayout(seg, rest);
    var s := PrintSegment(seg) + rest;
    SliceClass(s, 2, a);
    SliceClass(s, a, b);
    SliceClass(s, b, c);
    assert s[c] == '}' by { assert s[c] == s[c..c + 2][0]; }
    ClassesApart(s, a, c);
    BlanksEnd(s, 2, a);
    WordEnds(s, a, b);
    BlanksEnd(s, b, c);
  }

  lemma ClassesApart(s: string, a: nat, c: nat)
    requires a < c < |s| && s[c] == '}'
    ensures !IsBlank(s[c]) && !IsWord(s[c])
    ensures forall k :: 0 <= k < |s| ==> !(IsBlank(s[k]) && IsWord(s[k]))
  {
  }

  // A match is a well-formed placeholder, printed at the start of the string.
  lemma MatchIsPrinted(s: string)
    requires MatchPrefix(s).Some?
    ensures WellFormed(MatchPrefix(s).value) && PrintSegment(MatchPrefix(s).value) <= s
  {
    hide IsBlank, IsWord, SkipBlanks, SkipWord, PrintSegment;
    var a := SkipBlanks(s, 2);
    var b := SkipWord(s, a);
    var c := SkipBlanks(s, b);
    SliceClass(s, 2, a);
    SliceClass(s, a, b);
    SliceClass(s, b, c);
    MatchPrints(s, a, b, c);
  }

  lemma MatchPrints(s: string, a: nat, b: nat, c: nat)
    requires 2 <= a <= b <= c && c + 2 <= |s| && "{{" <= s && s[c..c + 2] == "}}"
    ensures PrintSegment(Placeholder(s[2..a], s[a..b], s[b..c])) == s[..c + 2]
  {
    var lead, name, trail := s[2..a], s[a..b], s[b..c];
    assert PrintSegment(Placeholder(lead, name, trail)) == "{{" + lead + name + trail + "}}";
    hide PrintSegment;
    assert "{{" + lead == s[..a] by { Joined(s, 2, a); }
    assert "{{" + lead + name == s[..b] by { Joined(s, a, b); }
    assert "{{" + lead + name + trail == s[..c] by { Joined(s, b, c); }
    Joined(s, c, c + 2);
  }

  // So the expression matches at the start of a string exactly the placeholder printed there, if any.
  lemma MatchExact(s: string, seg: Segment)
    ensures MatchPrefix(s) == Some(seg) <==> seg.Placeholder? && WellFormed(seg) && PrintSegment(seg) <= s
  {
    hide MatchPrefix, PrintSegment, WellFormed;
    if MatchPrefix(s).Some? {
      MatchIsPrinted(s);
    }
    if seg.Placeholder? && WellFormed(seg) && PrintSegment(seg) <= s {
      PlaceholderMatches(seg, s[|PrintSegment(seg)|..]);
      assert s == PrintSegment(seg) + s[|PrintSegment(seg)|..];
    }
  }

  // Any string as segments: a placeholder wherever one is printed, and single characters between.
  function Parse(s: string): seq<Segment>
    decreases |s|
  {
    if s == [] then []
    else match MatchPrefix(s)
      case None => [Literal([s[0]])] + Parse(s[1..])
      case Some(m) => [m] + Parse(s[|PrintSegment(m)|..])
  }

  lemma {:induction false} ParsePrints(s: string, vars: map<string, string>)
    ensures Print(Parse(s)) == s && (forall seg :: seg in Parse(s) ==> WellFormed(seg))
    ensures ReplaceAll(s, vars) == Values(Parse(s), vars)
    decreases |s|
  {
    hide MatchPrefix, PrintSegment, WellFormed, Print, Values;
    if s == [] {
      NothingPrints(vars);
    } else {
      var m := MatchPrefix(s);
      if m.None? {
        var seg, rest := Literal([s[0]]), s[1..];
        ParsePrints(rest, vars);
        LiteralPrints(seg);
        Prepended(seg, Parse(rest), vars);
        assert s == [s[0]] + rest;
      } else {
        MatchIsPrinted(s);
        var n := |PrintSegment(m.value)|;
        ParsePrints(s[n..], vars);
        Prepended(m.value, Parse(s[n..]), vars);
        assert s[..n] == PrintSegment(m.value) && s == s[..n] + s[n..];
      }
    }
  }

  lemma NothingPrints(vars: map<string, string>)
    ensures Print([]) == "" && Values([], vars) == ""
  {
  }

  lemma Prepended(seg: Segment, rest: seq<Segment>, vars: map<string, string>)
    ensures Print([seg] + rest) == PrintSegment(seg) + Print(rest)
    ensures Values([seg] + rest, vars) == Value(seg, vars) + Values(rest, vars)
  {
    assert ([seg] + rest)[1..] == rest;
  }

  lemma LiteralPrints(seg: Segment)
    requires seg.Literal?
    ensures PrintSegment(seg) == seg.text && WellFormed(seg)
  {
  }

  // ---- the check for leftovers ----

  lemma {:induction false} UnresolvedHasBraces(segs: seq<Segment>, vars: map<string, string>)
    requires !Resolved(segs, vars)
    ensures Contains(Values(segs, vars), "{{") && Contains(Values(segs, vars), "}}")
    decreases |segs|
  {
    var seg, rest := Value(segs[0], vars), Values(segs[1..], vars);
    if segs[0].Placeholder? && segs[0].name !in vars {
      var p := PrintSegment(segs[0]);
      assert p[0] == '{' && p[1] == '{' && p[|p| - 2] == '}' && p[|p| - 1] == '}';
      ContainsWider("", p, rest, "{{", 0);
      ContainsWider("", p, rest, "}}", |p| - 2);
      assert "" + p + rest == seg + rest;
    } else {
      UnresolvedTail(segs, vars);
      UnresolvedHasBraces(segs[1..], vars);
      var i :| 0 <= i < |rest| - 1 && rest[i] == '{' && rest[i + 1] == '{';
      ContainsWider(seg, rest, "", "{{", i);
      var j :| 0 <= j < |rest| - 1 && rest[j] == '}' && rest[j + 1] == '}';
      ContainsWider(seg, rest, "", "}}", j);
      assert seg + rest + "" == seg + rest;
    }
  }

  lemma UnresolvedTail(segs: seq<Segment>, vars: map<string, string>)
    requires !Resolved(segs, vars)
    ensures segs != [] && ((segs[0].Placeholder? && segs[0].name !in vars) || !Resolved(segs[1..], vars))
  {
    var seg :| seg in segs && seg.Placeholder? && seg.name !in vars;
    assert seg == segs[0] || seg in segs[1..];
  }

  lemma ContainsWider(a: string, s: string, b: string, pair: string, k: nat)
    requires |pair| == 2 && k + 1 < |s| && s[k] == pair[0] && s[k + 1] == pair[1]
    ensures Contains(a + s + b, pair)
  {
    var w := a + s + b;
    assert w[|a| + k] == s[k] && w[|a| + k + 1] == s[k + 1];
  }

  // Main result, for every template: a blank one is refused; any other comes out as its literal
  // characters and the values of its placeholders in order, never rescanned, unless that holds both
  // two opening and two closing braces in a row. A missing value always leaves them.
  lemma RenderExact(template: string, vars: map<string, string>)
    ensures var t := Text.TrimSpace(template);
            var (segs, out) := (Parse(t), Values(Parse(t), vars));
            && Print(segs) == t && (forall seg :: seg in segs ==> WellFormed(seg))
            && RenderTemplate(template, vars) ==
               (if t == "" then Err(TemplateRequired)
                else if Contains(out, "{{") && Contains(out, "}}") then Err(Unresolved) else Ok(out))
            && (t != "" && !Resolved(segs, vars) ==> RenderTemplate(template, vars) == Err(Unresolved))
            && (t != "" && Resolved(segs, vars) && NoBraces(out) ==> RenderTemplate(template, vars) == Ok(out))
  {
    hide Text.TrimSpace, ReplaceAll, Parse, Print, Values, WellFormed;
    var t := Text.TrimSpace(template);
    ParsePrints(t, vars);
    if !Resolved(Parse(t), vars) {
      UnresolvedHasBraces(Parse(t), vars);
    }
  }

  // ---- templates written as brace-free literals and placeholders ----

  // What parsing makes of a list of segments: its literals cut into characters.
  function Chars(text: string): seq<Segment> {
    if text == "" then [] else [Literal([text[0]])] + Chars(text[1..])
  }

  function Split(segs: seq<Segment>): seq<Segment> {
    if segs == [] then []
    else (if segs[0].Literal? then Chars(segs[0].text) else [segs[0]]) + Split(segs[1..])
  }

  // Literals hold no brace, placeholders are well formed.
  predicate Plain(segs: seq<Segment>) {
    forall seg :: seg in segs ==> WellFormed(seg) && (seg.Literal? ==> NoBraces(seg.text))
  }

  lemma NoPlaceholderHere(s: string)
    requires s != "" && s[0] != '{'
    ensures MatchPrefix(s).None?
  {
  }

  lemma {:induction false} ParseLiteral(text: string, rest: string)
    requires NoBraces(text)
    ensures Parse(text + rest) == Chars(text) + Parse(rest)
    decreases |text|
  {
    hide MatchPrefix;
    if text == [] {
      assert text + rest == rest;
    } else {
      var s := text + rest;
      assert s[0] == text[0] && text[0] in text;
      NoPlaceholderHere(s);
      assert s[1..] == text[1..] + rest;
      assert forall c :: c in text[1..] ==> c in text;
      ParseLiteral(text[1..], rest);
    }
  }

  // Parsing undoes printing, up to the cutting of literals.
  lemma {:induction false} ParseOfPrint(segs: seq<Segment>)
    requires Plain(segs)
    ensures Parse(Print(segs)) == Split(segs)
    decreases |segs|
  {
    hide MatchPrefix, WellFormed, PrintSegment;
    if segs != [] {
      var seg, rest := segs[0], Print(segs[1..]);
      assert seg in segs && forall x :: x in segs[1..] ==> x in segs;
      ParseOfPrint(segs[1..]);
      if seg.Literal? {
        LiteralPrints(seg);
        ParseLiteral(seg.text, rest);
      } else {
        PlaceholderMatches(seg, rest);
        var s := PrintSegment(seg) + rest;
        assert s[|PrintSegment(seg)|..] == rest;
      }
    }
  }

  lemma ValuesOfFirst(text: string, rest: seq<Segment>, vars: map<string, string>)
    ensures Values([Literal(text)] + rest, vars) == text + Values(rest, vars)
  {
    assert ([Literal(text)] + rest)[1..] == rest;
  }

  lemma {:induction false} ValuesOfChars(text: string, rest: seq<Segment>, vars: map<string, string>)
    ensures Values(Chars(text) + rest, vars) == text + Values(rest, vars)
    decreases |text|
  {
    hide Values;
    if text == "" {
      assert Chars(text) + rest == rest;
    } else {
      ValuesOfChars(text[1..], rest, vars);
      ValuesOfFirst([text[0]], Chars(text[1..]) + rest, vars);
      assert Chars(text) + rest == [Literal([text[0]])] + (Chars(text[1..]) + rest);
      assert text == [text[0]] + text[1..];
    }
  }

  lemma {:induction false} ValuesOfSplit(segs: seq<Segment>, vars: map<string, string>)
    ensures Values(Split(segs), vars) == Values(segs, vars)
    decreases |segs|
  {
    if segs != [] {
      ValuesOfSplit(segs[1..], vars);
      if segs[0].Literal? {
        ValuesOfChars(segs[0].text, Split(segs[1..]), vars);
      } else {
        assert Split(segs)[1..] == Split(segs[1..]);
      }
    }
  }

  lemma {:induction false} CharsAreLiterals(text: string)
    ensures forall seg :: seg in Chars(text) ==> seg.Literal?
    decreases |text|
  {
    if text != "" {
      CharsAreLiterals(text[1..]);
    }
  }

  lemma {:induction false} SplitKeepsPlaceholders(segs: seq<Segment>)
    ensures forall seg: Segment :: seg.Placeholder? ==> (seg in Split(segs) <==> seg in segs)
    decreases |segs|
  {
    if segs != [] {
      SplitKeepsPlaceholders(segs[1..]);
      assert segs == [segs[0]] + segs[1..];
      if segs[0].Literal? {
        CharsAreLiterals(segs[0].text);
      }
    }
  }

  // Every given value is free of braces.
  predicate CleanValues(segs: seq<Segment>, vars: map<string, string>) {
    forall seg :: seg in segs && seg.Placeholder? && seg.name in vars ==> NoBraces(vars[seg.name])
  }

  lemma {:induction false} ResolvedHasNoBraces(segs: seq<Segment>, vars: map<string, string>)
    requires Plain(segs) && CleanValues(segs, vars) && Resolved(segs, vars)
    ensures NoBraces(Values(segs, vars))
    decreases |segs|
  {
    if segs != [] {
      assert segs[0] in segs && forall x :: x in segs[1..] ==> x in segs;
      ResolvedHasNoBraces(segs[1..], vars);
    }
  }

  // A trimmed template of brace-free literals and placeholders, with brace-free values, renders
  // exactly when every placeholder has a value, to the literals and values in order.
  lemma RenderPrinted(segs: seq<Segment>, vars: map<string, string>)
    requires Plain(segs) && CleanValues(segs, vars)
    requires Print(segs) != "" && Text.TrimSpace(Print(segs)) == Print(segs)
    ensures RenderTemplate(Print(segs), vars) == if Resolved(segs, vars) then Ok(Values(segs, vars)) else Err(Unresolved)
  {
    hide Text.TrimSpace, RenderTemplate, Parse, Print, Values, Plain, CleanValues;
    RenderExact(Print(segs), vars);
    ParseOfPrint(segs);
    ValuesOfSplit(segs, vars);
    SplitKeepsPlaceholders(segs);
    if Resolved(segs, vars) {
      ResolvedHasNoBraces(segs, vars);
    }
  }
}
