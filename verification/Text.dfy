/** Splitting text at single bytes and at white space. A char stands for a byte. */
module Text {
  /** Where c first is in s, or the length of s. */
  function IndexOf(s: string, c: char): (n: nat)
    ensures n <= |s|
  {
    if s == "" || s[0] == c then 0 else 1 + IndexOf(s[1..], c)
  }

  lemma {:induction false} IndexAfter(a: string, c: char, b: string)
    requires c !in a
    ensures IndexOf(a + [c] + b, c) == |a|
  {
    if a != "" {
      IndexAfter(a[1..], c, b);
      assert (a + [c] + b)[1..] == a[1..] + [c] + b;
    }
  }

  lemma {:induction false} IndexAbsent(a: string, c: char)
    requires c !in a
    ensures IndexOf(a, c) == |a|
  {
    if a != "" { IndexAbsent(a[1..], c); }
  }

  /** It is there that c first is. */
  lemma {:induction false} IndexOfIs(s: string, c: char)
    ensures c !in s[..IndexOf(s, c)]
    ensures IndexOf(s, c) < |s| ==> s[IndexOf(s, c)] == c && s == s[..IndexOf(s, c)] + [c] + s[IndexOf(s, c) + 1..]
  {
    if s != "" && s[0] != c {
      var n := IndexOf(s[1..], c);
      IndexOfIs(s[1..], c);
      assert s[..n + 1] == [s[0]] + s[1..][..n];
    }
  }

  predicate AsciiSpace(c: char) {
    c == ' ' || c == '\t' || c == '\n' || c == '\r' || c == 0x0B as char || c == 0x0C as char
  }

  /** How many bytes of white space s begins with, counting one character: ASCII space, or one of the other spaces of
      Unicode in UTF-8. Their lead bytes are never inside another character. */
  function SpaceWidth(s: string): nat {
    if s == "" then 0
    else if AsciiSpace(s[0]) then 1
    else if |s| >= 2 && s[0] == 0xC2 as char && (s[1] == 0x85 as char || s[1] == 0xA0 as char) then 2
    else if |s| < 3 then 0
    else if s[0] == 0xE1 as char && s[1] == 0x9A as char && s[2] == 0x80 as char then 3
    else if s[0] == 0xE2 as char && s[1] == 0x80 as char
            && (0x80 as char <= s[2] <= 0x8A as char || s[2] == 0xA8 as char || s[2] == 0xA9 as char || s[2] == 0xAF as char) then 3
    else if s[0] == 0xE2 as char && s[1] == 0x81 as char && s[2] == 0x9F as char then 3
    else if s[0] == 0xE3 as char && s[1] == 0x80 as char && s[2] == 0x80 as char then 3
    else 0
  }

  function WordLength(s: string): (n: nat)
    ensures n <= |s|
  {
    if s == "" || SpaceWidth(s) > 0 then 0 else 1 + WordLength(s[1..])
  }

  /** The parts of s between white space. */
  function Fields(s: string): seq<string>
    decreases |s|
  {
    if s == "" then []
    else if SpaceWidth(s) > 0 then Fields(s[SpaceWidth(s)..])
    else var n := WordLength(s); [s[..n]] + Fields(s[n..])
  }

  predicate NoSpace(s: string) {
    forall i :: 0 <= i < |s| ==> SpaceWidth(s[i..]) == 0
  }

  predicate Word(s: string) {
    s != "" && NoSpace(s)
  }

  function Joined(words: seq<string>): string {
    if words == [] then "" else if |words| == 1 then words[0] else words[0] + " " + Joined(words[1..])
  }

  lemma JoinedTwo(a: string, b: string)
    ensures Joined([a, b]) == a + " " + b
  {
    assert [a, b][1..] == [b];
  }

  lemma JoinedThree(a: string, b: string, c: string)
    ensures Joined([a, b, c]) == a + " " + b + " " + c
  {
    assert [a, b, c][1..] == [b, c];
    JoinedTwo(b, c);
  }

  lemma SpaceWidthAlone(s: string, more: string)
    requires s != "" && SpaceWidth(s) == 0 && (more == "" || AsciiSpace(more[0]))
    ensures SpaceWidth(s + more) == 0
  {
  }

  lemma {:induction false} WordLengthOf(w: string, more: string)
    requires NoSpace(w) && (more == "" || AsciiSpace(more[0]))
    ensures WordLength(w + more) == |w|
  {
    if w == "" {
      assert w + more == more;
    } else {
      hide SpaceWidth;
      assert w[0..] == w;
      SpaceWidthAlone(w, more);
      forall i | 0 <= i < |w[1..]| ensures SpaceWidth(w[1..][i..]) == 0 { assert w[1..][i..] == w[i + 1..]; }
      WordLengthOf(w[1..], more);
      assert (w + more)[1..] == w[1..] + more;
    }
  }

  lemma FieldsFirst(w: string, more: string)
    requires Word(w) && (more == "" || AsciiSpace(more[0]))
    ensures Fields(w + more) == [w] + Fields(more)
  {
    hide SpaceWidth;
    WordLengthOf(w, more);
    assert w[0..] == w;
    SpaceWidthAlone(w, more);
    assert (w + more)[..|w|] == w && (w + more)[|w|..] == more;
  }

  /** Splitting undoes joining. */
  lemma {:induction false} FieldsJoined(words: seq<string>)
    requires forall w :: w in words ==> Word(w)
    ensures Fields(Joined(words)) == words
  {
    hide Word, SpaceWidth;
    if words != [] {
      var w, more := words[0], if |words| == 1 then "" else " " + Joined(words[1..]);
      assert Joined(words) == w + more;
      FieldsFirst(w, more);
      FieldsJoined(words[1..]);
      if |words| > 1 { FieldsSkip(Joined(words[1..])); } else { assert words[1..] == []; }
      assert words == [w] + words[1..];
    }
  }

  /** A newline at the end makes no difference. */
  lemma {:induction false} FieldsJoinedLine(words: seq<string>)
    requires forall w :: w in words ==> Word(w)
    ensures Fields(Joined(words) + "\n") == words
  {
    hide Word, SpaceWidth, Fields;
    if words == [] {
      FieldsOfNewline();
      assert Joined(words) + "\n" == "\n";
    } else {
      var more := (if |words| == 1 then "" else " " + Joined(words[1..])) + "\n";
      FieldsFirst(words[0], more);
      FieldsJoinedLine(words[1..]);
      if |words| > 1 {
        FieldsSkip(Joined(words[1..]) + "\n");
        assert more == " " + (Joined(words[1..]) + "\n");
      } else {
        assert words[1..] == [] && more == Joined(words[1..]) + "\n";
      }
      assert Joined(words) + "\n" == words[0] + more && words == [words[0]] + words[1..];
    }
  }

  lemma FieldsOfNewline()
    ensures Fields("\n") == []
  {
    assert "\n"[1..] == "";
  }

  lemma FieldsSkip(s: string)
    ensures Fields(" " + s) == Fields(s)
  {
    assert (" " + s)[1..] == s;
  }

  lemma SpaceWidthFits(s: string)
    ensures SpaceWidth(s) <= |s|
  {
  }

  lemma PrefixSpace(s: string, n: nat)
    requires n <= |s| && SpaceWidth(s) == 0
    ensures SpaceWidth(s[..n]) == 0
  {
  }

  lemma {:induction false} WordIsWord(s: string)
    ensures NoSpace(s[..WordLength(s)])
  {
    if s != "" && SpaceWidth(s) == 0 {
      hide SpaceWidth;
      WordIsWord(s[1..]);
      var n := WordLength(s);
      forall i | 0 <= i < n ensures SpaceWidth(s[..n][i..]) == 0 {
        if i == 0 {
          PrefixSpace(s, n);
          assert s[..n][0..] == s[..n];
        } else {
          assert s[..n][i..] == s[1..][..n - 1][i - 1..];
        }
      }
    }
  }

  lemma {:induction false} FieldsAreWords(s: string)
    ensures forall w :: w in Fields(s) ==> Word(w)
    decreases |s|
  {
    if s != "" {
      hide SpaceWidth;
      SpaceWidthFits(s);
      if SpaceWidth(s) > 0 {
        FieldsAreWords(s[SpaceWidth(s)..]);
      } else {
        WordIsWord(s);
        FieldsAreWords(s[WordLength(s)..]);
      }
    }
  }

  lemma WordsHaveNoNewline(w: string)
    requires Word(w)
    ensures '\n' !in w && ' ' !in w
  {
    forall i | 0 <= i < |w| ensures w[i] != '\n' && w[i] != ' ' { assert SpaceWidth(w[i..]) == 0 && w[i..][0] == w[i]; }
  }

  lemma PlainHasNoSpace(s: string)
    requires forall i :: 0 <= i < |s| ==> s[i] < 0x80 as char && !AsciiSpace(s[i])
    ensures NoSpace(s)
  {
    forall i | 0 <= i < |s| ensures SpaceWidth(s[i..]) == 0 { assert s[i..][0] == s[i]; }
  }

  /** The parts of s between the bytes c. */
  function Split(s: string, c: char): (parts: seq<string>)
    ensures parts != []
    decreases |s|
  {
    var n := IndexOf(s, c);
    if n == |s| then [s] else [s[..n]] + Split(s[n + 1..], c)
  }

  /** A text without c is one part; otherwise what is before the first c is, and the rest is split on. */
  lemma SplitAt(a: string, c: char, b: string)
    requires c !in a
    ensures Split(a, c) == [a] && Split(a + [c] + b, c) == [a] + Split(b, c)
  {
    IndexAbsent(a, c);
    IndexAfter(a, c, b);
    var s := a + [c] + b;
    assert s[..|a|] == a && s[|a| + 1..] == b;
  }

  function TrimStart(s: string): string
    decreases |s|
  {
    SpaceWidthFits(s);
    if SpaceWidth(s) > 0 then TrimStart(s[SpaceWidth(s)..]) else s
  }

  /** How many of the last bytes of s are one white space character. */
  function SpaceAtEnd(s: string): (n: nat)
    ensures n <= |s|
  {
    if |s| >= 1 && SpaceWidth(s[|s| - 1..]) == 1 then 1
    else if |s| >= 2 && SpaceWidth(s[|s| - 2..]) == 2 then 2
    else if |s| >= 3 && SpaceWidth(s[|s| - 3..]) == 3 then 3
    else 0
  }

  function TrimEnd(s: string): string
    decreases |s|
  {
    if SpaceAtEnd(s) > 0 then TrimEnd(s[..|s| - SpaceAtEnd(s)]) else s
  }

  function TrimSpace(s: string): string {
    TrimEnd(TrimStart(s))
  }

  lemma {:induction false} TrimStartIs(s: string)
    ensures TrimStart(s) != "" ==> SpaceWidth(TrimStart(s)) == 0
    ensures |TrimStart(s)| <= |s| && s == s[..|s| - |TrimStart(s)|] + TrimStart(s) && Fields(s[..|s| - |TrimStart(s)|]) == []
    decreases |s|
  {
    hide Fields, SpaceWidth, TrimStart;
    SpaceWidthFits(s);
    StartTrimmed(s);
    var w := SpaceWidth(s);
    if w > 0 {
      TrimStartIs(s[w..]);
      var left := s[w..][..|s| - w - |TrimStart(s)|];
      assert s[..|s| - |TrimStart(s)|] == s[..w] + left;
      SpaceThenFields(s, w, left);
    } else {
      assert s[..0] == "";
      NoFieldsInNothing();
    }
  }

  lemma NoFieldsInNothing()
    ensures Fields("") == []
  {
  }

  lemma StartTrimmed(s: string)
    requires SpaceWidth(s) <= |s|
    ensures TrimStart(s) == if SpaceWidth(s) > 0 then TrimStart(s[SpaceWidth(s)..]) else s
  {
    hide SpaceWidth;
  }

  lemma SpaceThenFields(s: string, w: nat, more: string)
    requires 0 < w <= |s| && SpaceWidth(s) == w
    ensures Fields(s[..w] + more) == Fields(more)
  {
    var t := s[..w] + more;
    assert t[w..] == more;
    assert t[0] == s[0] && (w > 1 ==> t[1] == s[1]) && (w > 2 ==> t[2] == s[2]);
  }

  lemma {:induction false} TrimEndIs(s: string)
    ensures SpaceAtEnd(TrimEnd(s)) == 0
    ensures TrimEnd(s) <= s && OnlySpace(s[|TrimEnd(s)|..])
    decreases |s|
  {
    hide SpaceWidth, OnlySpace, SpaceAtEnd;
    var w := SpaceAtEnd(s);
    if w > 0 {
      EndTrimmed(s, w);
      var t := s[..|s| - w];
      TrimEndIs(t);
      var n := |TrimEnd(t)|;
      assert s[n..] == t[n..] + s[|s| - w..];
      EndSpace(s, w);
      SpaceGrows(t[n..], s[|s| - w..]);
    } else {
      assert s[|s|..] == "";
      EmptyIsSpace();
    }
  }

  lemma EndTrimmed(s: string, w: nat)
    requires 0 < w == SpaceAtEnd(s)
    ensures TrimEnd(s) == TrimEnd(s[..|s| - w])
  {
    hide SpaceAtEnd;
  }

  lemma EmptyIsSpace()
    ensures OnlySpace("")
  {
  }

  /** Nothing but whole white space characters. */
  predicate OnlySpace(s: string)
    decreases |s|
  {
    s == "" || (SpaceWidth(s) > 0 && SpaceWidth(s) <= |s| && OnlySpace(s[SpaceWidth(s)..]))
  }

  lemma EndSpace(s: string, w: nat)
    requires w > 0 && w == SpaceAtEnd(s)
    ensures w <= |s| && SpaceWidth(s[|s| - w..]) == w
  {
  }

  lemma {:induction false} SpaceGrows(a: string, b: string)
    requires OnlySpace(a) && b != "" && SpaceWidth(b) == |b|
    ensures OnlySpace(a + b)
    decreases |a|
  {
    if a == "" {
      assert a + b == b;
      assert b[|b|..] == "";
    } else {
      var w := SpaceWidth(a);
      SpaceKept(a, b);
      assert (a + b)[w..] == a[w..] + b;
      SpaceGrows(a[w..], b);
    }
  }

  lemma SpaceKept(a: string, b: string)
    requires SpaceWidth(a) > 0
    ensures SpaceWidth(a + b) == SpaceWidth(a)
  {
    var w := SpaceWidth(a);
    assert (a + b)[0] == a[0] && (|a| > 1 ==> (a + b)[1] == a[1]) && (|a| > 2 ==> (a + b)[2] == a[2]);
  }

  lemma {:induction false} OnlySpaceHasNoFields(s: string)
    requires OnlySpace(s)
    ensures Fields(s) == []
    decreases |s|
  {
    if s != "" { OnlySpaceHasNoFields(s[SpaceWidth(s)..]); }
  }

  /** Trimming takes white space off both ends, and all of it. */
  lemma TrimSpaceIs(s: string) returns (left: string, right: string)
    ensures s == left + TrimSpace(s) + right && Fields(left) == [] && Fields(right) == []
    ensures TrimSpace(s) != "" ==> SpaceWidth(TrimSpace(s)) == 0
    ensures var t := TrimSpace(s); forall i :: 0 <= i < |t| ==> SpaceWidth(t[i..]) != |t| - i
  {
    hide SpaceWidth, Fields, TrimEnd, TrimStart, OnlySpace, SpaceAtEnd;
    TrimStartIs(s);
    var t := TrimStart(s);
    TrimEndIs(t);
    left, right := s[..|s| - |t|], t[|TrimEnd(t)|..];
    OnlySpaceHasNoFields(right);
    if TrimEnd(t) != "" {
      StartKept(t, |TrimEnd(t)|);
      assert t[..|TrimEnd(t)|] == TrimEnd(t);
    }
    assert TrimSpace(s) == TrimEnd(t);
    NothingAtEnd(TrimSpace(s));
  }

  lemma NothingAtEnd(t: string)
    requires SpaceAtEnd(t) == 0
    ensures forall i :: 0 <= i < |t| ==> SpaceWidth(t[i..]) != |t| - i
  {
    forall i | 0 <= i < |t| ensures SpaceWidth(t[i..]) != |t| - i { AtMostThree(t[i..]); }
  }

  lemma AtMostThree(s: string)
    ensures SpaceWidth(s) <= 3
  {
  }

  lemma StartKept(t: string, n: nat)
    requires 0 < n <= |t| && SpaceWidth(t) == 0
    ensures SpaceWidth(t[..n]) == 0
  {
    PrefixSpace(t, n);
  }

  /** Text that begins and ends with printable ASCII is not trimmed. */
  lemma NothingTrimmed(s: string)
    requires s != "" && '!' <= s[0] <= '~' && '!' <= s[|s| - 1] <= '~'
    ensures TrimSpace(s) == s
  {
    hide SpaceWidth, SpaceAtEnd;
    NoSpaceAtStart(s);
    NoSpaceAtEnd(s);
  }

  lemma NoSpaceAtEnd(s: string)
    requires s != "" && '!' <= s[|s| - 1] <= '~'
    ensures SpaceAtEnd(s) == 0
  {
    hide SpaceWidth;
    NoSpaceAtStart(s[|s| - 1..]);
    if |s| >= 2 { EndsPlain(s[|s| - 2..]); }
    if |s| >= 3 { EndsPlain(s[|s| - 3..]); }
  }

  lemma NoSpaceAtStart(s: string)
    requires s != "" && '!' <= s[0] <= '~'
    ensures SpaceWidth(s) == 0
  {
  }

  lemma EndsPlain(s: string)
    requires 2 <= |s| && '!' <= s[|s| - 1] <= '~'
    ensures SpaceWidth(s) != |s|
  {
  }

  // ---- white space, by code points ----

  /** The bytes of a code point of the basic plane in UTF-8. */
  function Utf8(c: nat): string
    requires c < 0x10000
  {
    if c < 0x80 then [c as char]
    else if c < 0x800 then [(0xC0 + c / 64) as char, (0x80 + c % 64) as char]
    else [(0xE0 + c / 4096) as char, (0x80 + c / 64 % 64) as char, (0x80 + c % 64) as char]
  }

  /** The code points that Unicode calls white space. */
  predicate WhiteSpace(c: nat) {
    || 9 <= c <= 13 || c == 0x20 || c == 0x85 || c == 0xA0 || c == 0x1680 || 0x2000 <= c <= 0x200A
    || c == 0x2028 || c == 0x2029 || c == 0x202F || c == 0x205F || c == 0x3000
  }

  /** Text begins with white space exactly if its first character is some, and with as many bytes of it as that has. */
  lemma SpaceWidthExactly(c: nat, rest: string)
    requires c < 0x10000
    ensures SpaceWidth(Utf8(c) + rest) == if WhiteSpace(c) then |Utf8(c)| else 0
  {
    var s := Utf8(c) + rest;
    assert s[0] == Utf8(c)[0];
    if c >= 0x80 {
      assert s[1] == Utf8(c)[1];
      if c < 0x800 { TwoBytes(c); } else { assert s[2] == Utf8(c)[2]; ThreeBytes(c); }
    }
  }

  lemma TwoBytes(c: nat)
    requires 0x80 <= c < 0x800
    ensures c == 64 * (c / 64) + c % 64
  {
  }

  lemma ThreeBytes(c: nat)
    requires 0x800 <= c < 0x10000
    ensures c == 4096 * (c / 4096) + 64 * (c / 64 % 64) + c % 64
  {
  }
}
