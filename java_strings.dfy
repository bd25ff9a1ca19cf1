/**
 * The parts of java.lang.String and java.lang.Integer that the plugin relies on:
 * trim, isBlank, split (with Java's rule that trailing empty strings are dropped),
 * splitting on the line-break matcher \R, Integer.parseInt, String.join and the
 * decimal rendering of %d.  Case folding is restricted to ASCII.
 */
module JavaStrings {
  import opened Wrappers

  const MinInt: int := -0x8000_0000
  const MaxInt: int := 0x7FFF_FFFF

  predicate InInt32(x: int) { MinInt <= x <= MaxInt }

  // ---------------------------------------------------------------------------
  // trim(): strips every leading and trailing character <= U+0020

  /** Drops the leading characters at or below U+0020. */
  function TrimStart(s: string): (r: string)
    ensures r != [] ==> r[0] > ' '
  {
    if s != [] && s[0] <= ' ' then TrimStart(s[1..]) else s
  }

  /** Drops the trailing characters at or below U+0020. */
  function TrimEnd(s: string): (r: string)
    ensures |r| <= |s| && r == s[..|r|]
    ensures r != [] ==> r[|r| - 1] > ' '
  {
    if s != [] && s[|s| - 1] <= ' ' then TrimEnd(s[..|s| - 1]) else s
  }

  /** trim(): the middle of s left after removing every leading and trailing character at
      or below U+0020 (TrimIsSlice). */
  function Trim(s: string): (r: string)
    ensures r != [] ==> r[0] > ' ' && r[|r| - 1] > ' '
  {
    TrimEnd(TrimStart(s))
  }

  /** Trim removes only characters at or below U+0020, and only from the two ends. */
  lemma TrimIsSlice(s: string)
    ensures exists i, j :: (0 <= i <= j <= |s| && Trim(s) == s[i..j]
      && (forall k :: 0 <= k < i ==> s[k] <= ' ') && (forall k :: j <= k < |s| ==> s[k] <= ' '))
  {
    var t := TrimStart(s);
    var r := TrimEnd(t);
    var i := |s| - |t|;
    TrimStartSuffix(s);
    TrimEndPrefix(t);
    assert r == s[i..i + |r|] && forall k :: i + |r| <= k < |s| ==> s[k] == t[k - i];
  }

  lemma {:induction false} TrimStartSuffix(s: string)
    ensures var t := TrimStart(s); (|t| <= |s| && t == s[|s| - |t|..]
      && forall k :: 0 <= k < |s| - |t| ==> s[k] <= ' ')
  {
    if s != [] && s[0] <= ' ' {
      TrimStartSuffix(s[1..]);
    }
  }

  lemma {:induction false} TrimEndPrefix(s: string)
    ensures forall k :: |TrimEnd(s)| <= k < |s| ==> s[k] <= ' '
  {
    if s != [] && s[|s| - 1] <= ' ' {
      TrimEndPrefix(s[..|s| - 1]);
    }
  }

  /** trim only removes characters. */
  lemma {:induction false} TrimStartChars(s: string, c: char)
    requires c !in s
    ensures c !in TrimStart(s)
  {
    if s != [] && s[0] <= ' ' {
      TrimStartChars(s[1..], c);
    }
  }

  lemma TrimChars(s: string, c: char)
    requires c !in s
    ensures c !in Trim(s)
  {
    TrimStartChars(s, c);
    var t := TrimStart(s);
    assert TrimEnd(t) == t[..|TrimEnd(t)|];
  }

  /** A string whose ends are not trimmable is its own trim. */
  predicate IsTrimmed(s: string) { s == [] || (s[0] > ' ' && s[|s| - 1] > ' ') }

  lemma TrimOfTrimmed(s: string)
    requires IsTrimmed(s)
    ensures Trim(s) == s
  {
    if s != [] {
      assert TrimStart(s) == s;
      assert TrimEnd(s) == s;
    } else {
      assert (" " + s)[1..] == [];
      assert TrimStart(" " + s) == TrimStart([]) == [];
      assert TrimEnd([]) == [];
    }
  }

  /** Leading blanks do not survive trim: a ", x" token of a joined list trims back to x. */
  lemma TrimLeadingSpace(s: string)
    requires IsTrimmed(s)
    ensures Trim(" " + s) == s
  {
    if s != [] {
      assert (" " + s)[1..] == s;
      assert TrimStart(s) == s;
      assert TrimStart(" " + s) == s;
      assert TrimEnd(s) == s;
    } else {
      assert (" " + s)[1..] == [];
      assert TrimStart(" " + s) == TrimStart([]) == [];
      assert TrimEnd([]) == [];
    }
  }

  // ---------------------------------------------------------------------------
  // Character.isWhitespace and String.isBlank

  /** Character.isWhitespace: Unicode space separators other than the no-break ones,
      the line and paragraph separators, and U+0009..U+000D, U+001C..U+001F. */
  predicate IsWhitespace(c: char)
  {
    || '\t' <= c <= '\r'
    || '\U{001C}' <= c <= ' '
    || c == '\U{1680}'
    || '\U{2000}' <= c <= '\U{2006}'
    || '\U{2008}' <= c <= '\U{200A}'
    || c == '\U{2028}' || c == '\U{2029}' || c == '\U{205F}' || c == '\U{3000}'
  }

  predicate IsBlank(s: string) { forall i :: 0 <= i < |s| ==> IsWhitespace(s[i]) }

  // ---------------------------------------------------------------------------
  // toLowerCase and equalsIgnoreCase, restricted to ASCII letters

  function LowerChar(c: char): (d: char)
    ensures 'A' <= c <= 'Z' ==> d as int == c as int + 32
    ensures !('A' <= c <= 'Z') ==> d == c
  {
    if 'A' <= c <= 'Z' then (c as int + 32) as char else c
  }

  function Lower(s: string): (r: string)
    ensures |r| == |s|
    ensures forall i :: 0 <= i < |s| ==> r[i] == LowerChar(s[i])
  {
    seq(|s|, i requires 0 <= i < |s| => LowerChar(s[i]))
  }

  /** Equal ignoring case: in particular, of the same length. */
  predicate EqualsIgnoreCase(a: string, b: string)
    ensures EqualsIgnoreCase(a, b) ==> |a| == |b|
  {
    Lower(a) == Lower(b)
  }

  // ---------------------------------------------------------------------------
  // split on a single separator character

  /** Every piece between separators, the empty ones included (Java's split with a
      negative limit). */
  function SplitAll(s: string, sep: char): (parts: seq<string>)
    ensures |parts| >= 1
    ensures forall p :: p in parts ==> sep !in p
  {
    if s == [] then [""]
    else
      var rest := SplitAll(s[1..], sep);
      if s[0] == sep then [""] + rest
      else [[s[0]] + rest[0]] + rest[1..]
  }

  /** Removes the empty strings at the end of a split result. */
  function DropTrailingEmpty(parts: seq<string>): (r: seq<string>)
    ensures |r| <= |parts| && r == parts[..|r|]
    ensures r != [] ==> r[|r| - 1] != ""
    ensures forall i :: |r| <= i < |parts| ==> parts[i] == ""
  {
    if parts != [] && parts[|parts| - 1] == "" then DropTrailingEmpty(parts[..|parts| - 1])
    else parts
  }

  /** String.split(sep): an input without the separator comes back whole (even the
      empty string); otherwise the pieces, less the trailing empty ones. */
  function Split(s: string, sep: char): (parts: seq<string>)
    ensures forall p :: p in parts ==> sep !in p
  {
    if sep !in s then [s]
    else
      var all := SplitAll(s, sep);
      var kept := DropTrailingEmpty(all);
      assert forall i :: 0 <= i < |kept| ==> kept[i] == all[i];
      kept
  }

  /** Joining the pieces with the separator gives the input back. */
  lemma {:induction false} SplitAllJoin(s: string, sep: char)
    ensures Join([sep], SplitAll(s, sep)) == s
  {
    if s != [] {
      SplitAllJoin(s[1..], sep);
      var rest := SplitAll(s[1..], sep);
      if s[0] == sep {
        assert s == [sep] + s[1..];
      } else if |rest| == 1 {
        assert s == [s[0]] + rest[0];
      } else {
        assert Join([sep], rest) == rest[0] + [sep] + Join([sep], rest[1..]);
        assert s == [s[0]] + s[1..];
      }
    }
  }

  /** Splitting a prefix free of separators, followed by a separator, peels off that prefix. */
  lemma {:induction false} SplitAllCons(a: string, b: string, sep: char)
    requires sep !in a
    ensures SplitAll(a + [sep] + b, sep) == [a] + SplitAll(b, sep)
  {
    if a == [] {
      assert a + [sep] + b == [sep] + b;
      assert ([sep] + b)[1..] == b;
    } else {
      SplitAllCons(a[1..], b, sep);
      assert (a + [sep] + b)[1..] == a[1..] + [sep] + b;
      assert [a[0]] + a[1..] == a;
    }
  }

  /** A string without the separator is a single piece. */
  lemma {:induction false} SplitAllNoSep(s: string, sep: char)
    requires sep !in s
    ensures SplitAll(s, sep) == [s]
  {
    if s != [] {
      SplitAllNoSep(s[1..], sep);
      assert [s[0]] + s[1..] == s;
    }
  }

  // ---------------------------------------------------------------------------
  // split("\\R"): the line-break matcher, where CR LF counts as one break

  predicate IsLineBreak(c: char)
  {
    c == '\n' || c == '\U{000B}' || c == '\U{000C}' || c == '\r'
    || c == '\U{0085}' || c == '\U{2028}' || c == '\U{2029}'
  }

  function SplitLinesAll(s: string): (lines: seq<string>)
    ensures |lines| >= 1
  {
    if s == [] then [""]
    else if s[0] == '\r' && |s| > 1 && s[1] == '\n' then [""] + SplitLinesAll(s[2..])
    else if IsLineBreak(s[0]) then [""] + SplitLinesAll(s[1..])
    else
      var rest := SplitLinesAll(s[1..]);
      [[s[0]] + rest[0]] + rest[1..]
  }

  predicate HasLineBreak(s: string) { exists i :: 0 <= i < |s| && IsLineBreak(s[i]) }

  /** String.split("\\R"). */
  function Lines(s: string): (lines: seq<string>)
    ensures forall l :: l in lines ==> !HasLineBreak(l)
  {
    if !HasLineBreak(s) then [s]
    else
      SplitLinesNoBreak(s);
      var all := SplitLinesAll(s);
      var kept := DropTrailingEmpty(all);
      assert forall i :: 0 <= i < |kept| ==> kept[i] == all[i];
      kept
  }

  /** No line holds a break character. */
  lemma {:induction false} SplitLinesNoBreak(s: string)
    ensures forall l :: l in SplitLinesAll(s) ==> !HasLineBreak(l)
  {
    if s != [] {
      if s[0] == '\r' && |s| > 1 && s[1] == '\n' {
        SplitLinesNoBreak(s[2..]);
      } else if IsLineBreak(s[0]) {
        SplitLinesNoBreak(s[1..]);
      } else {
        SplitLinesNoBreak(s[1..]);
        var rest := SplitLinesAll(s[1..]);
        var first := [s[0]] + rest[0];
        assert rest[0] in rest;
        forall i | 0 <= i < |first| ensures !IsLineBreak(first[i]) {
          if i > 0 {
            assert first[i] == rest[0][i - 1];
          }
        }
        assert SplitLinesAll(s) == [first] + rest[1..];
      }
    }
  }

  /** The line breaks SplitLinesAll cut at, in order: CR LF as one break, any other
      break character alone. */
  function LineBreaks(s: string): (bs: seq<string>)
    ensures |bs| == |SplitLinesAll(s)| - 1
  {
    if s == [] then []
    else if s[0] == '\r' && |s| > 1 && s[1] == '\n' then ["\r\n"] + LineBreaks(s[2..])
    else if IsLineBreak(s[0]) then [[s[0]]] + LineBreaks(s[1..])
    else LineBreaks(s[1..])
  }

  /** The lines with the breaks between them put back. */
  function Interleave(lines: seq<string>, bs: seq<string>): string
    requires |bs| == |lines| - 1
  {
    if |lines| == 1 then lines[0] else lines[0] + bs[0] + Interleave(lines[1..], bs[1..])
  }

  /** The lines, rejoined with the breaks they were cut at, give the text back. */
  lemma {:induction false} SplitLinesJoin(s: string)
    ensures Interleave(SplitLinesAll(s), LineBreaks(s)) == s
  {
    if s != [] {
      if s[0] == '\r' && |s| > 1 && s[1] == '\n' {
        SplitLinesJoin(s[2..]);
        BreakStep(SplitLinesAll(s[2..]), LineBreaks(s[2..]), "\r\n");
        assert s[..2] == "\r\n" && s == s[..2] + s[2..];
      } else if IsLineBreak(s[0]) {
        SplitLinesJoin(s[1..]);
        BreakStep(SplitLinesAll(s[1..]), LineBreaks(s[1..]), [s[0]]);
        assert s == [s[0]] + s[1..];
      } else {
        SplitLinesJoin(s[1..]);
        CharStep(s[0], SplitLinesAll(s[1..]), LineBreaks(s[1..]));
        assert s == [s[0]] + s[1..];
      }
    }
  }

  lemma CharStep(c: char, lines: seq<string>, bs: seq<string>)
    requires |bs| == |lines| - 1
    ensures Interleave([[c] + lines[0]] + lines[1..], bs) == [c] + Interleave(lines, bs)
  {
    var l := [[c] + lines[0]] + lines[1..];
    assert |l| == |lines| && l[0] == [c] + lines[0] && l[1..] == lines[1..];
    if |lines| == 1 {
      assert Interleave(l, bs) == l[0];
      assert Interleave(lines, bs) == lines[0];
    } else {
      var r := Interleave(lines[1..], bs[1..]);
      assert Interleave(l, bs) == l[0] + bs[0] + r;
      assert Interleave(lines, bs) == lines[0] + bs[0] + r;
      ConcatAssoc([c], lines[0], bs[0], r);
    }
  }

  lemma ConcatAssoc(w: string, x: string, y: string, z: string)
    ensures w + x + y + z == w + (x + y + z)
  {
  }

  lemma BreakStep(lines: seq<string>, bs: seq<string>, b: string)
    requires |bs| == |lines| - 1
    ensures Interleave([""] + lines, [b] + bs) == b + Interleave(lines, bs)
  {
    var l, m := [""] + lines, [b] + bs;
    assert l[0] == "" && l[1..] == lines && m[0] == b && m[1..] == bs && |l| != 1;
    assert Interleave(l, m) == l[0] + m[0] + Interleave(lines, bs);
    assert "" + b == b;
  }

  /** CR LF between two lines is one break, so no empty line appears between them. */
  lemma {:induction false} SplitLinesCrLf(a: string, b: string)
    requires !HasLineBreak(a)
    ensures SplitLinesAll(a + "\r\n" + b) == [a] + SplitLinesAll(b)
  {
    var x := a + "\r\n" + b;
    if a == [] {
      assert x[0] == '\r' && x[1] == '\n' && x[2..] == b;
    } else {
      assert !HasLineBreak(a[1..]) by {
        forall i | 0 <= i < |a[1..]| ensures !IsLineBreak(a[1..][i]) {
          assert a[1..][i] == a[i + 1];
        }
      }
      SplitLinesCrLf(a[1..], b);
      assert x[0] == a[0] && !IsLineBreak(x[0]);
      assert x[1..] == a[1..] + "\r\n" + b;
      var rest := SplitLinesAll(x[1..]);
      assert rest[0] == a[1..] && rest[1..] == SplitLinesAll(b);
      assert SplitLinesAll(x) == [[a[0]] + rest[0]] + rest[1..];
      assert [a[0]] + a[1..] == a;
    }
  }

  // ---------------------------------------------------------------------------
  // Integer.parseInt (radix 10) and the %d rendering

  predicate IsDigit(c: char) { '0' <= c <= '9' }

  predicate AllDigits(s: string) { forall i :: 0 <= i < |s| ==> IsDigit(s[i]) }

  function DigitsValue(s: string): nat
    requires AllDigits(s)
  {
    if s == [] then 0 else DigitsValue(s[..|s| - 1]) * 10 + (s[|s| - 1] as int - '0' as int)
  }

  /** Integer.parseInt: an optional sign, then at least one digit, and the value must be
      an int; anything else is a NumberFormatException, here None. */
  function ParseInt(s: string): (r: Option<int>)
    ensures r.Some? ==> InInt32(r.value)
    ensures r.Some? ==> s != [] && s != "-" && s != "+"
    ensures s == [] ==> r.None?
  {
    var signed := s != [] && (s[0] == '-' || s[0] == '+');
    var digits := if signed then s[1..] else s;
    if digits == [] || !AllDigits(digits) then None
    else
      var magnitude: int := DigitsValue(digits);
      var v := if s[0] == '-' then -magnitude else magnitude;
      if InInt32(v) then Some(v) else None
  }

  /** An optional sign followed by ASCII digits parses to its signed value when that
      value is an int; leading zeros and a leading '+' are accepted. */
  lemma ParseIntSignDigits(sign: string, ds: string)
    requires sign == "" || sign == "+" || sign == "-"
    requires ds != [] && AllDigits(ds)
    ensures var m: int := DigitsValue(ds); var v := if sign == "-" then -m else m;
      ParseInt(sign + ds) == if InInt32(v) then Some(v) else None
  {
    var s := sign + ds;
    if sign == "" {
      assert s == ds && IsDigit(s[0]);
    } else {
      assert s[0] == sign[0] && s[1..] == ds;
    }
  }

  /** Conversely, whatever parses is an optional sign followed by ASCII digits whose
      signed value is the result. */
  lemma ParseIntShape(s: string)
    requires ParseInt(s).Some?
    ensures var k := if IsDigit(s[0]) then 0 else 1;
      && (k == 0 || s[0] == '-' || s[0] == '+')
      && s[k..] != [] && AllDigits(s[k..])
      && var m: int := DigitsValue(s[k..]); ParseInt(s).value == if s[0] == '-' then -m else m
  {
  }

  function DigitChar(d: nat): (c: char)
    requires d < 10
    ensures IsDigit(c) && c as int - '0' as int == d
  {
    ('0' as int + d) as char
  }

  function ShowNat(n: nat): (s: string)
    ensures s != [] && AllDigits(s)
  {
    if n < 10 then [DigitChar(n)] else ShowNat(n / 10) + [DigitChar(n % 10)]
  }

  /** String.format("%d", n). */
  function ShowInt(n: int): (s: string)
    ensures s != []
  {
    if n < 0 then "-" + ShowNat(-n) else ShowNat(n)
  }

  lemma {:induction false} ShowNatValue(n: nat)
    ensures DigitsValue(ShowNat(n)) == n
  {
    if n >= 10 {
      ShowNatValue(n / 10);
      var s := ShowNat(n);
      assert s[..|s| - 1] == ShowNat(n / 10);
    }
  }

  /** Integer.parseInt reads back what %d printed, for every int. */
  lemma ParseShowInt(n: int)
    requires InInt32(n)
    ensures ParseInt(ShowInt(n)) == Some(n)
  {
    var m := if n < 0 then -n else n;
    ShowNatValue(m);
    var s := ShowInt(n);
    if n < 0 {
      assert s[1..] == ShowNat(m);
    } else {
      assert IsDigit(s[0]);
    }
  }

  // ---------------------------------------------------------------------------
  // String.join

  /** The parts in order with sep between them; the text starts with the first part. */
  function Join(sep: string, parts: seq<string>): (r: string)
    ensures parts != [] ==> |parts[0]| <= |r| && r[..|parts[0]|] == parts[0]
  {
    if parts == [] then ""
    else if |parts| == 1 then parts[0]
    else parts[0] + sep + Join(sep, parts[1..])
  }
}
