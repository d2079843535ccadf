/** Phone numbers: rewriting what a user typed into a plus sign and 8 to 15 digits. */
module Phone {
  import opened Common
  import Text

  datatype Error = PhoneRequired | DigitsOnly | WrongLength

  predicate IsDigit(c: char) {
    '0' <= c <= '9'
  }

  predicate AllDigits(s: string) {
    forall c :: c in s ==> IsDigit(c)
  }

  // strings.ReplaceAll(s, c, "") for a single character
  function Remove(s: string, c: char): string {
    if s == [] then [] else (if s[0] == c then [] else [s[0]]) + Remove(s[1..], c)
  }

  function Strip(s: string): string {
    Remove(Remove(Remove(Remove(s, ' '), '-'), '('), ')')
  }

  // The rewriting of the prefix: 00 means +, a leading 0 means the Kenyan country code.
  function International(s: string): (r: string)
    ensures r != [] && r[0] == '+'
  {
    var v := if "00" <= s then "+" + s[2..] else s;
    if "+" <= v then v else if "0" <= v then "+254" + v[1..] else "+" + v
  }

  function Checked(v: string): Result<string, Error>
    requires v != []
  {
    if !AllDigits(v[1..]) then Err(DigitsOnly)
    else if !(8 <= |v| - 1 <= 15) then Err(WrongLength)
    else Ok(v)
  }

  function Normalized(input: string): Result<string, Error> {
    var v := Text.TrimSpace(input);
    if v == "" then Err(PhoneRequired) else Checked(International(Strip(v)))
  }

  method NormalizePhone(input: string) returns (r: Result<string, Error>)
    ensures r == Normalized(input)
  {
    hide Text.TrimSpace, Remove;
    var v := Text.TrimSpace(input);
    if v == "" { return Err(PhoneRequired); }
    v := Remove(v, ' ');
    v := Remove(v, '-');
    v := Remove(v, '(');
    v := Remove(v, ')');
    if "00" <= v { v := "+" + v[2..]; }
    if !("+" <= v) {
      if "0" <= v { v := "+254" + v[1..]; } else { v := "+" + v; }
    }
    var digits := v[1..];
    for i := 0 to |digits|
      invariant forall k :: 0 <= k < i ==> IsDigit(digits[k])
    {
      if digits[i] < '0' || digits[i] > '9' {
        assert digits[i] in digits;
        return Err(DigitsOnly);
      }
    }
    if |digits| < 8 || |digits| > 15 { return Err(WrongLength); }
    return Ok(v);
  }

  // ---- what the result means ----

  // The shape of an international number, at most 15 digits as in section 6 of ITU-T E.164.
  predicate IsE164(v: string) {
    v != [] && v[0] == '+' && 8 <= |v| - 1 <= 15 && AllDigits(v[1..])
  }

  // The four ways of writing number v without separators.
  predicate Writes(s: string, v: string)
    requires IsE164(v)
  {
    || s == v
    || s == "00" + v[1..]
    || (s == v[1..] && s[0] != '0')
    || ("+254" <= v && s == "0" + v[4..] && !("00" <= s))
  }

  // An input is accepted exactly when, trimmed and stripped of separators, it writes some
  // international number, and the result is that number.
  lemma AcceptedExactly(input: string, v: string)
    ensures Normalized(input) == Ok(v) <==> IsE164(v) && Writes(Strip(Text.TrimSpace(input)), v)
  {
    var t := Text.TrimSpace(input);
    var s := Strip(t);
    hide Text.TrimSpace, Strip;
    if t == "" {
      assert s == "" by { StripOfNothing(); }
    }
    if IsE164(v) && Writes(s, v) {
      assert International(s) == v by { WrittenNumber(s, v); }
    }
    if Normalized(input) == Ok(v) {
      assert International(s) == v && IsE164(v);
    }
  }

  lemma StripOfNothing()
    ensures Strip("") == ""
  {
  }

  lemma WrittenNumber(s: string, v: string)
    requires IsE164(v) && Writes(s, v)
    ensures International(s) == v
  {
    if s == v[1..] && s != v {
      assert v == "+" + s;
      assert s[0] in v[1..];
    } else if s == "00" + v[1..] {
      assert s[2..] == v[1..] && v == "+" + v[1..];
    } else if s != v {
      assert s[1..] == v[4..] && v == "+254" + v[4..];
    }
  }

  lemma AlwaysE164(input: string)
    ensures Normalized(input).Ok? ==> IsE164(Normalized(input).value)
  {
    hide Text.TrimSpace, Strip, International;
  }

  // ---- idempotence ----

  lemma {:induction false} RemoveAbsent(s: string, c: char)
    requires c !in s
    ensures Remove(s, c) == s
    decreases |s|
  {
    if s != [] {
      assert forall x :: x in s[1..] ==> x in s;
      RemoveAbsent(s[1..], c);
      assert s == [s[0]] + s[1..];
    }
  }

  lemma StripClean(s: string)
    requires ' ' !in s && '-' !in s && '(' !in s && ')' !in s
    ensures Strip(s) == s
  {
    RemoveAbsent(s, ' ');
    RemoveAbsent(s, '-');
    RemoveAbsent(s, '(');
    RemoveAbsent(s, ')');
  }

  // Normalising a normalised number changes nothing.
  lemma NormalizedTwice(input: string)
    requires Normalized(input).Ok?
    ensures Normalized(Normalized(input).value) == Normalized(input)
  {
    hide Text.TrimSpace, Strip, International, Checked;
    AlwaysE164(input);
    E164IsFixed(Normalized(input).value);
  }

  // No step of the rewriting touches a number in its final form.
  lemma E164IsFixed(v: string)
    requires IsE164(v)
    ensures Text.TrimSpace(v) == v && Strip(v) == v && International(v) == v && Checked(v) == Ok(v)
  {
    hide Text.TrimSpace, Strip;
    assert forall c :: c in v ==> c == '+' || IsDigit(c) by {
      assert v == [v[0]] + v[1..];
    }
    assert IsDigit(v[|v| - 1]) by { assert v[1..][|v| - 2] in v[1..]; }
    Text.TrimSpaceFixed(v);
    StripClean(v);
  }

  // ---- separators do not matter ----

  predicate IsSeparator(c: char) {
    c in {' ', '-', '(', ')'}
  }

  function Kept(s: string): string {
    if s == [] then [] else (if IsSeparator(s[0]) then [] else [s[0]]) + Kept(s[1..])
  }

  lemma {:induction false} RemoveKeepsKept(s: string, c: char)
    requires IsSeparator(c)
    ensures Kept(Remove(s, c)) == Kept(s)
    ensures forall x :: x in Remove(s, c) ==> x in s && x != c
    decreases |s|
  {
    if s != [] {
      RemoveKeepsKept(s[1..], c);
      assert Remove(s, c) == (if s[0] == c then [] else [s[0]]) + Remove(s[1..], c);
      if s[0] == c {
        assert Remove(s, c) == Remove(s[1..], c) && Kept(s) == Kept(s[1..]);
      } else {
        assert Remove(s, c)[1..] == Remove(s[1..], c);
      }
    }
  }

  lemma {:induction false} KeptWhole(s: string)
    requires forall c :: c in s ==> !IsSeparator(c)
    ensures Kept(s) == s
    decreases |s|
  {
    if s != [] {
      assert s[0] in s && forall x :: x in s[1..] ==> x in s;
      KeptWhole(s[1..]);
    }
  }

  lemma StripIsKept(s: string)
    ensures Strip(s) == Kept(s)
  {
    hide Remove;
    var a := Remove(s, ' ');
    var b := Remove(a, '-');
    var c := Remove(b, '(');
    RemoveKeepsKept(s, ' ');
    RemoveKeepsKept(a, '-');
    RemoveKeepsKept(b, '(');
    RemoveKeepsKept(c, ')');
    KeptWhole(Remove(c, ')'));
  }

  lemma {:induction false} KeptAppend(a: string, b: string)
    ensures Kept(a + b) == Kept(a) + Kept(b)
    decreases |a|
  {
    if a == [] {
      assert a + b == b;
    } else {
      assert (a + b)[1..] == a[1..] + b;
      KeptAppend(a[1..], b);
    }
  }

  // Inserting a separator anywhere does not change what is kept.
  lemma InsertedSeparator(a: string, c: char, b: string)
    requires IsSeparator(c)
    ensures Kept(a + [c] + b) == Kept(a + b)
  {
    KeptAppend(a + [c], b);
    KeptAppend(a, [c]);
    KeptAppend(a, b);
    assert Kept([c]) == [];
  }

  // The only white space in the input is the plain space.
  predicate PlainlySpaced(s: string) {
    forall c :: c in s ==> (Text.IsSpace(c) ==> c == ' ')
  }

  lemma {:induction false} KeptBlank(s: string)
    requires forall c :: c in s ==> c == ' '
    ensures Kept(s) == ""
    decreases |s|
  {
    if s != [] {
      assert s[0] in s && forall x :: x in s[1..] ==> x in s;
      KeptBlank(s[1..]);
    }
  }

  lemma TrimLeftKeepsKept(s: string)
    requires PlainlySpaced(s)
    ensures Kept(Text.TrimLeft(s)) == Kept(s) && PlainlySpaced(Text.TrimLeft(s))
  {
    hide Text.IsSpace, Kept, Text.TrimLeft;
    var l := Text.TrimLeft(s);
    var lead := Text.TrimLeftCuts(s);
    KeptBlank(lead);
    KeptAppend(lead, l);
    assert "" + Kept(l) == Kept(l);
  }

  lemma TrimRightKeepsKept(s: string)
    requires PlainlySpaced(s)
    ensures Kept(Text.TrimRight(s)) == Kept(s)
  {
    hide Text.IsSpace, Kept, Text.TrimRight;
    var r := Text.TrimRight(s);
    var tail := Text.TrimRightCuts(s);
    KeptBlank(tail);
    KeptAppend(r, tail);
    assert Kept(r) + "" == Kept(r);
  }

  lemma TrimKeepsKept(s: string)
    requires PlainlySpaced(s)
    ensures Kept(Text.TrimSpace(s)) == Kept(s)
  {
    TrimLeftKeepsKept(s);
    TrimRightKeepsKept(Text.TrimLeft(s));
  }

  // Main result: two inputs that differ only in separators, and hold no other white space, have
  // the same outcome: the same number, or no number.
  lemma SeparatorsDoNotMatter(a: string, b: string)
    requires PlainlySpaced(a) && PlainlySpaced(b) && Kept(a) == Kept(b)
    ensures Normalized(a).Ok? <==> Normalized(b).Ok?
    ensures Normalized(a).Ok? ==> Normalized(a) == Normalized(b)
  {
    OutcomeOfKept(a);
    OutcomeOfKept(b);
  }

  lemma OutcomeOfKept(a: string)
    requires PlainlySpaced(a)
    ensures Normalized(a).Ok? <==> Checked(International(Kept(a))).Ok?
    ensures Normalized(a).Ok? ==> Normalized(a) == Checked(International(Kept(a)))
  {
    hide Text.TrimSpace, Strip;
    TrimKeepsKept(a);
    StripIsKept(Text.TrimSpace(a));
    assert Kept("") == "";
    assert Checked(International("")).Err?;
  }

  // So a separator inserted anywhere in a plainly spaced input changes nothing.
  lemma InsertionIsHarmless(a: string, c: char, b: string)
    requires PlainlySpaced(a) && PlainlySpaced(b) && c in {' ', '-', '(', ')'}
    ensures Normalized(a + [c] + b).Ok? <==> Normalized(a + b).Ok?
    ensures Normalized(a + b).Ok? ==> Normalized(a + [c] + b) == Normalized(a + b)
  {
    hide Normalized, Kept;
    InsertedSeparator(a, c, b);
    SeparatorsDoNotMatter(a + [c] + b, a + b);
  }
}
