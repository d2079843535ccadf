/** The string helpers of Go's standard library that the services lean on:
    strings.TrimSpace over the Unicode white-space characters, and strings.ToLower
    and strings.ToUpper over the ASCII letters. */
module Text {
  predicate IsSpace(c: char) {
    || '\t' <= c <= '\r' || c == ' ' || c == '\U{0085}' || c == '\U{00A0}' || c == '\U{1680}'
    || '\U{2000}' <= c <= '\U{200A}' || c == '\U{2028}' || c == '\U{2029}' || c == '\U{202F}'
    || c == '\U{205F}' || c == '\U{3000}'
  }

  function TrimLeft(s: string): string {
    if s != [] && IsSpace(s[0]) then TrimLeft(s[1..]) else s
  }

  function TrimRight(s: string): string {
    if s != [] && IsSpace(s[|s| - 1]) then TrimRight(s[..|s| - 1]) else s
  }

  function TrimSpace(s: string): string {
    TrimRight(TrimLeft(s))
  }

  lemma {:induction false} TrimLeftCuts(s: string) returns (lead: string)
    ensures s == lead + TrimLeft(s) && (forall c :: c in lead ==> IsSpace(c))
    ensures TrimLeft(s) == [] || !IsSpace(TrimLeft(s)[0])
    decreases |s|
  {
    hide IsSpace;
    if s != [] && IsSpace(s[0]) {
      lead := TrimLeftCuts(s[1..]);
      lead := [s[0]] + lead;
      assert s == [s[0]] + s[1..];
    } else {
      lead := [];
    }
  }

  lemma {:induction false} TrimRightCuts(s: string) returns (tail: string)
    ensures s == TrimRight(s) + tail && (forall c :: c in tail ==> IsSpace(c))
    ensures TrimRight(s) == [] || (!IsSpace(TrimRight(s)[|TrimRight(s)| - 1]) && TrimRight(s)[0] == s[0])
    decreases |s|
  {
    hide IsSpace;
    if s != [] && IsSpace(s[|s| - 1]) {
      var n := |s| - 1;
      tail := TrimRightCuts(s[..n]);
      tail := tail + [s[n]];
      assert s == s[..n] + [s[n]];
    } else {
      tail := [];
    }
  }

  // A string without white space at its ends is left alone.
  lemma TrimSpaceFixed(s: string)
    requires s == [] || (!IsSpace(s[0]) && !IsSpace(s[|s| - 1]))
    ensures TrimSpace(s) == s
  {
  }

  // Trimming leaves no white space at the ends, so trimming twice is trimming once.
  lemma TrimSpaceTwice(s: string)
    ensures TrimSpace(TrimSpace(s)) == TrimSpace(s)
  {
    hide IsSpace;
    var l := TrimLeft(s);
    var _ := TrimLeftCuts(s);
    var _ := TrimRightCuts(l);
    TrimSpaceFixed(TrimRight(l));
  }

  // What trimming cuts off is white space, and it leaves none at the ends.
  lemma TrimSpaceExact(s: string) returns (lead: string, tail: string)
    ensures s == lead + TrimSpace(s) + tail && forall c :: c in lead + tail ==> IsSpace(c)
    ensures var t := TrimSpace(s); t == "" || (!IsSpace(t[0]) && !IsSpace(t[|t| - 1]))
  {
    hide IsSpace;
    var l := TrimLeft(s);
    lead := TrimLeftCuts(s);
    tail := TrimRightCuts(l);
    assert s == lead + (TrimRight(l) + tail);
  }

  // The white-space characters, by their code points.
  lemma SpaceCodes(c: char)
    ensures IsSpace(c) <==>
            var n := c as int;
            9 <= n <= 13 || 0x2000 <= n <= 0x200A || n in {0x20, 0x85, 0xA0, 0x1680, 0x2028, 0x2029, 0x202F, 0x205F, 0x3000}
  {
  }

  function LowerChar(c: char): char {
    if 'A' <= c <= 'Z' then c - 'A' + 'a' else c
  }

  function UpperChar(c: char): char {
    if 'a' <= c <= 'z' then c - 'a' + 'A' else c
  }

  function Lower(s: string): (r: string)
    ensures |r| == |s|
  {
    seq(|s|, i requires 0 <= i < |s| => LowerChar(s[i]))
  }

  function Upper(s: string): (r: string)
    ensures |r| == |s|
  {
    seq(|s|, i requires 0 <= i < |s| => UpperChar(s[i]))
  }

  // Folding moves the ASCII letters of the other case by 32 and nothing else.
  lemma CaseExact(s: string, i: nat)
    requires i < |s|
    ensures Lower(s)[i] as int == s[i] as int + if 65 <= s[i] as int <= 90 then 32 else 0
    ensures Upper(s)[i] as int == s[i] as int - if 97 <= s[i] as int <= 122 then 32 else 0
  {
  }

  lemma LowerCharSpace(c: char)
    ensures IsSpace(LowerChar(c)) == IsSpace(c)
  {
  }

  lemma {:induction false} TrimLeftOfLower(s: string)
    ensures TrimLeft(Lower(s)) == Lower(TrimLeft(s))
    decreases |s|
  {
    hide IsSpace, LowerChar;
    if s != [] {
      LowerCharSpace(s[0]);
      assert Lower(s)[1..] == Lower(s[1..]);
      TrimLeftOfLower(s[1..]);
    }
  }

  lemma {:induction false} TrimRightOfLower(s: string)
    ensures TrimRight(Lower(s)) == Lower(TrimRight(s))
    decreases |s|
  {
    hide IsSpace, LowerChar;
    if s != [] {
      var n := |s| - 1;
      LowerCharSpace(s[n]);
      assert Lower(s)[..n] == Lower(s[..n]);
      TrimRightOfLower(s[..n]);
    }
  }

  lemma TrimOfLower(s: string)
    ensures TrimSpace(Lower(s)) == Lower(TrimSpace(s))
  {
    hide TrimLeft, TrimRight, Lower;
    TrimLeftOfLower(s);
    TrimRightOfLower(TrimLeft(s));
  }

  // Trimming before folding changes nothing when one trims after it as well.
  lemma TrimAroundLower(s: string)
    ensures TrimSpace(Lower(TrimSpace(s))) == TrimSpace(Lower(s))
  {
    hide TrimSpace, Lower;
    TrimOfLower(s);
    TrimOfLower(TrimSpace(s));
    TrimSpaceTwice(s);
  }

  // TRIM of SQL: plain spaces only.
  function CutLeftBlanks(s: string): string {
    if s != "" && s[0] == ' ' then CutLeftBlanks(s[1..]) else s
  }

  function CutRightBlanks(s: string): string {
    if s != "" && s[|s| - 1] == ' ' then CutRightBlanks(s[..|s| - 1]) else s
  }

  function TrimBlanks(s: string): string {
    CutRightBlanks(CutLeftBlanks(s))
  }

  lemma {:induction false} CutLeftExact(s: string) returns (lead: string)
    ensures s == lead + CutLeftBlanks(s) && (forall c :: c in lead ==> c == ' ')
    ensures CutLeftBlanks(s) == "" || CutLeftBlanks(s)[0] != ' '
    decreases |s|
  {
    lead := "";
    if s != "" && s[0] == ' ' {
      lead := CutLeftExact(s[1..]);
      lead := [' '] + lead;
      assert s == [' '] + s[1..];
    }
  }

  lemma {:induction false} CutRightExact(s: string) returns (tail: string)
    ensures s == CutRightBlanks(s) + tail && (forall c :: c in tail ==> c == ' ')
    ensures var t := CutRightBlanks(s); t == "" || (t[0] == s[0] && t[|t| - 1] != ' ')
    decreases |s|
  {
    tail := "";
    if s != "" && s[|s| - 1] == ' ' {
      tail := CutRightExact(s[..|s| - 1]);
      tail := tail + [' '];
      assert s == s[..|s| - 1] + [' '];
    }
  }

  // What it cuts off are spaces, and it leaves none at the ends.
  lemma TrimBlanksExact(s: string) returns (lead: string, tail: string)
    ensures s == lead + TrimBlanks(s) + tail
    ensures (forall c :: c in lead ==> c == ' ') && (forall c :: c in tail ==> c == ' ')
    ensures var t := TrimBlanks(s); t == "" || (t[0] != ' ' && t[|t| - 1] != ' ')
  {
    hide CutLeftBlanks, CutRightBlanks;
    var l := CutLeftBlanks(s);
    lead := CutLeftExact(s);
    tail := CutRightExact(l);
    assert s == lead + (CutRightBlanks(l) + tail);
  }
}
