/** The Python string built-ins that the summarizer and the request handler
    rely on: `str.lower`, substring `in`, `str.split(" ")`, `' '.join`,
    `str.replace("\n", " ")` and `int()` applied to a string. */
module Builtins {
  import opened Wrappers

  // ---------------------------------------------------------------------
  // str.lower (ASCII letters only)

  function LowerChar(c: char): char
  {
    if 'A' <= c <= 'Z' then (c as int + 32) as char else c
  }

  function Lower(s: string): string
  {
    seq(|s|, i requires 0 <= i < |s| => LowerChar(s[i]))
  }

  /** Lower-casing twice is lower-casing once. */
  lemma LowerIdempotent(s: string)
    ensures Lower(Lower(s)) == Lower(s)
  {
  }

  // ---------------------------------------------------------------------
  // `t in s` for two strings: a substring test

  predicate OccursAt(t: string, s: string, i: int)
  {
    0 <= i && i + |t| <= |s| && s[i..i + |t|] == t
  }

  predicate IsSubstring(t: string, s: string)
  {
    exists i | 0 <= i <= |s| - |t| :: OccursAt(t, s, i)
  }

  /** The empty string is a substring of every string. */
  lemma EmptyIsSubstring(s: string)
    ensures IsSubstring("", s)
  {
    assert OccursAt("", s, 0);
  }

  // ---------------------------------------------------------------------
  // str.split(" "): cut at every single space, keeping empty pieces

  function Split(s: string): (pieces: seq<string>)
    ensures |pieces| >= 1
  {
    if s == [] then [""]
    else if s[0] == ' ' then [""] + Split(s[1..])
    else
      var rest := Split(s[1..]);
      [[s[0]] + rest[0]] + rest[1..]
  }

  /** sep.join(parts) */
  function Join(parts: seq<string>, sep: string): string
  {
    if |parts| == 0 then ""
    else if |parts| == 1 then parts[0]
    else parts[0] + sep + Join(parts[1..], sep)
  }

  /** No piece produced by Split contains the separator. */
  lemma {:induction false} SplitPiecesHaveNoSpace(s: string)
    ensures forall p :: p in Split(s) ==> ' ' !in p
  {
    if s != [] {
      SplitPiecesHaveNoSpace(s[1..]);
      if s[0] != ' ' {
        var rest := Split(s[1..]);
        assert rest[0] in rest;
        forall p | p in rest[1..] ensures p in rest { }
      }
    }
  }

  lemma JoinCons(x: string, rest: seq<string>, sep: string)
    requires |rest| >= 1
    ensures Join([x] + rest, sep) == x + sep + Join(rest, sep)
  {
    assert ([x] + rest)[0] == x && ([x] + rest)[1..] == rest;
  }

  /** How one character in front changes the pieces. */
  lemma SplitStep(c: char, t: string)
    ensures c == ' ' ==> Split([c] + t) == [""] + Split(t)
    ensures c != ' ' ==> Split([c] + t) == [[c] + Split(t)[0]] + Split(t)[1..]
  {
    assert ([c] + t)[0] == c && ([c] + t)[1..] == t;
  }

  /** Putting a character in front of a joined string puts it in front of
      the first piece. */
  lemma JoinFrontChar(c: char, rest: seq<string>)
    requires |rest| >= 1
    ensures Join([[c] + rest[0]] + rest[1..], " ") == [c] + Join(rest, " ")
  {
    if |rest| == 1 {
      JoinFrontOne(c, rest);
    } else {
      JoinFrontMany(c, rest);
    }
  }

  lemma JoinFrontOne(c: char, rest: seq<string>)
    requires |rest| == 1
    ensures Join([[c] + rest[0]] + rest[1..], " ") == [c] + Join(rest, " ")
  {
    assert [[c] + rest[0]] + rest[1..] == [[c] + rest[0]];
  }

  lemma JoinFrontMany(c: char, rest: seq<string>)
    requires |rest| > 1
    ensures Join([[c] + rest[0]] + rest[1..], " ") == [c] + Join(rest, " ")
  {
    var first, tail := [c] + rest[0], rest[1..];
    assert rest == [rest[0]] + tail;
    JoinCons(first, tail, " ");
    JoinCons(rest[0], tail, " ");
    ConcatFront(c, rest[0], " " + Join(tail, " "));
  }

  lemma ConcatFront(c: char, a: string, b: string)
    ensures ([c] + a) + b == [c] + (a + b)
  {
  }

  /** Joining the pieces with a single space gives back the sentence. */
  lemma {:induction false} JoinSplit(s: string)
    ensures Join(Split(s), " ") == s
  {
    if s != [] {
      var c, t := s[0], s[1..];
      assert s == [c] + t;
      JoinSplit(t);
      SplitStep(c, t);
      if c == ' ' {
        JoinCons("", Split(t), " ");
      } else {
        JoinFrontChar(c, Split(t));
      }
    }
  }

  /** Joining a longer list extends the joined string of a shorter prefix. */
  lemma {:induction false} JoinPrefix(a: seq<string>, b: seq<string>, sep: string)
    ensures Join(a, sep) <= Join(a + b, sep)
  {
    if |a| == 0 {
    } else if |a| == 1 {
      if |b| > 0 {
        assert (a + b)[1..] == b;
      }
    } else {
      assert (a + b)[1..] == a[1..] + b;
      JoinPrefix(a[1..], b, sep);
    }
  }

  // ---------------------------------------------------------------------
  // str.replace("\n", " ")

  function ReplaceNewlines(s: string): (r: string)
    ensures |r| == |s|
    ensures '\n' !in r
    ensures forall i :: 0 <= i < |s| && s[i] != '\n' ==> r[i] == s[i]
    ensures forall i :: 0 <= i < |s| && s[i] == '\n' ==> r[i] == ' '
  {
    seq(|s|, i requires 0 <= i < |s| => if s[i] == '\n' then ' ' else s[i])
  }

  // ---------------------------------------------------------------------
  // int(x) for a string x: surrounding white space, an optional sign, and
  // decimal digits with single underscores allowed between digits

  predicate IsSpace(c: char)
  {
    c == ' ' || 9 <= c as int <= 13 || 28 <= c as int <= 31
  }

  predicate IsDigit(c: char)
  {
    '0' <= c <= '9'
  }

  function StripLeft(s: string): string
  {
    if |s| > 0 && IsSpace(s[0]) then StripLeft(s[1..]) else s
  }

  function StripRight(s: string): string
  {
    if |s| > 0 && IsSpace(s[|s| - 1]) then StripRight(s[..|s| - 1]) else s
  }

  function Strip(s: string): string
  {
    StripRight(StripLeft(s))
  }

  /** A well-formed run of digits: it starts and ends with a digit, and every
      underscore sits between two digits. */
  predicate WellFormedDigits(d: string)
  {
    && |d| > 0
    && IsDigit(d[0])
    && IsDigit(d[|d| - 1])
    && (forall i :: 0 <= i < |d| ==> IsDigit(d[i]) || d[i] == '_')
    && (forall i :: 0 <= i < |d| - 1 && d[i] == '_' ==> d[i + 1] != '_')
  }

  function DigitsValue(d: string): nat
  {
    if |d| == 0 then 0
    else if IsDigit(d[|d| - 1]) then DigitsValue(d[..|d| - 1]) * 10 + (d[|d| - 1] as int - '0' as int)
    else DigitsValue(d[..|d| - 1])
  }

  function ParseInt(s: string): Option<int>
  {
    var t := Strip(s);
    if |t| > 0 && (t[0] == '+' || t[0] == '-') then
      if WellFormedDigits(t[1..]) then
        Some(if t[0] == '-' then -(DigitsValue(t[1..]) as int) else DigitsValue(t[1..]) as int)
      else None
    else if WellFormedDigits(t) then Some(DigitsValue(t))
    else None
  }

  /** Decimal notation of an integer, as Python's str() writes it. */
  function ShowNat(n: nat): string
  {
    var last := [('0' as int + n % 10) as char];
    if n < 10 then last else ShowNat(n / 10) + last
  }

  function ShowInt(n: int): string
  {
    if n < 0 then "-" + ShowNat(-n) else ShowNat(n)
  }

  lemma {:induction false} ShowNatDigits(n: nat)
    ensures |ShowNat(n)| > 0
    ensures forall i :: 0 <= i < |ShowNat(n)| ==> IsDigit(ShowNat(n)[i])
    ensures DigitsValue(ShowNat(n)) == n
  {
    var last := [('0' as int + n % 10) as char];
    if n >= 10 {
      ShowNatDigits(n / 10);
      var s := ShowNat(n);
      assert s[..|s| - 1] == ShowNat(n / 10);
    }
  }

  /** int() reads back what str() writes. */
  lemma ParseShowInt(n: int)
    ensures ParseInt(ShowInt(n)) == Some(n)
  {
    var t := ShowInt(n);
    var d := if n < 0 then -n else n;
    ShowNatDigits(d);
    assert Strip(t) == t;
    if n < 0 {
      assert t[1..] == ShowNat(d);
    }
  }

  lemma {:induction false} StripLeftChars(s: string)
    ensures forall c :: c in StripLeft(s) ==> c in s
    ensures forall i :: 0 <= i < |s| ==> IsSpace(s[i]) || s[i] in StripLeft(s)
  {
    if |s| > 0 && IsSpace(s[0]) {
      StripLeftChars(s[1..]);
      forall i | 0 < i < |s| ensures IsSpace(s[i]) || s[i] in StripLeft(s) {
        assert s[1..][i - 1] == s[i];
      }
    }
  }

  lemma {:induction false} StripRightChars(s: string)
    ensures forall c :: c in StripRight(s) ==> c in s
    ensures forall i :: 0 <= i < |s| ==> IsSpace(s[i]) || s[i] in StripRight(s)
  {
    if |s| > 0 && IsSpace(s[|s| - 1]) {
      var p := s[..|s| - 1];
      StripRightChars(p);
      forall i | 0 <= i < |s| - 1 ensures IsSpace(s[i]) || s[i] in StripRight(s) {
        assert p[i] == s[i];
      }
    }
  }

  /** int() accepts only white space, signs, digits and underscores, and
      needs at least one digit. */
  lemma ParseIntCharacters(s: string)
    ensures ParseInt(s).Some? ==> exists i :: 0 <= i < |s| && IsDigit(s[i])
    ensures ParseInt(s).Some? ==>
      forall i :: 0 <= i < |s| ==> IsSpace(s[i]) || IsDigit(s[i]) || s[i] == '_' || s[i] == '+' || s[i] == '-'
  {
    if ParseInt(s).Some? {
      var t := Strip(s);
      StripLeftChars(s);
      StripRightChars(StripLeft(s));
      var d := if |t| > 0 && (t[0] == '+' || t[0] == '-') then t[1..] else t;
      assert WellFormedDigits(d);
      assert forall c :: c in t ==> IsDigit(c) || c == '_' || c == '+' || c == '-' by {
        forall c | c in t ensures IsDigit(c) || c == '_' || c == '+' || c == '-' {
          var j :| 0 <= j < |t| && t[j] == c;
          if d != t && j > 0 {
            assert d[j - 1] == c;
          }
        }
      }
      assert d[0] in t;
      assert d[0] in s;
    }
  }
}
