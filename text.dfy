/**
 * The string primitives the gallery builder leans on: `str.strip()`,
 * reading a file line by line, writing one name per line,
 * `','.join` / `str.split(',')`, and `str(n)` for a page number.
 * Python 2 strings are byte strings; a `char` stands for one byte.
 */
module Text {

  /** Python 2 `str.isspace()` on one character: space, \t, \n, \r, \v, \f. */
  predicate IsSpace(c: char)
  {
    c == ' ' || c == '\t' || c == '\n' || c == '\r' || c == '\U{B}' || c == '\U{C}'
  }

  /** `s.lstrip()`: drops the leading whitespace. */
  function TrimLeft(s: string): (r: string)
    ensures |r| <= |s|
    ensures r == [] || !IsSpace(r[0])
  {
    if s != [] && IsSpace(s[0]) then TrimLeft(s[1..]) else s
  }

  /** What `lstrip()` drops is leading whitespace: the result is a suffix after spaces. */
  lemma {:induction false} TrimLeftSuffix(s: string)
    ensures TrimLeft(s) == s[|s| - |TrimLeft(s)|..]
    ensures forall k :: 0 <= k < |s| - |TrimLeft(s)| ==> IsSpace(s[k])
    decreases |s|
  {
    if s != [] && IsSpace(s[0]) {
      TrimLeftSuffix(s[1..]);
    }
  }

  /** `s.rstrip()`: drops the trailing whitespace. */
  function TrimRight(s: string): (r: string)
    ensures |r| <= |s|
    ensures r == [] || !IsSpace(r[|r| - 1])
  {
    if s != [] && IsSpace(s[|s| - 1]) then TrimRight(s[..|s| - 1]) else s
  }

  /** What `rstrip()` drops is trailing whitespace: the result is a prefix before spaces. */
  lemma {:induction false} TrimRightPrefix(s: string)
    ensures TrimRight(s) == s[..|TrimRight(s)|]
    ensures forall k :: |TrimRight(s)| <= k < |s| ==> IsSpace(s[k])
    decreases |s|
  {
    if s != [] && IsSpace(s[|s| - 1]) {
      TrimRightPrefix(s[..|s| - 1]);
    }
  }

  /** Neither starts nor ends with whitespace: what `strip()` returns. */
  predicate IsStripped(s: string)
  {
    s == [] || (!IsSpace(s[0]) && !IsSpace(s[|s| - 1]))
  }

  /** `s.strip()`. */
  function Strip(s: string): (r: string)
    ensures IsStripped(r)
  {
    var t := TrimLeft(s);
    TrimRightPrefix(t);
    TrimRight(t)
  }

  /** A stripped string is left as it is by `strip()`. */
  lemma StripStripped(s: string)
    requires IsStripped(s)
    ensures Strip(s) == s
  {
  }

  /** Stripping the leading whitespace of a concatenation. */
  lemma {:induction false} TrimLeftAppend(a: string, b: string)
    ensures TrimLeft(a + b) == if TrimLeft(a) == [] then TrimLeft(b) else TrimLeft(a) + b
    decreases |a|
  {
    if a == [] {
      assert a + b == b;
    } else if IsSpace(a[0]) {
      assert (a + b)[0] == a[0];
      assert (a + b)[1..] == a[1..] + b;
      TrimLeftAppend(a[1..], b);
    } else {
      assert (a + b)[0] == a[0];
    }
  }

  /** A line's own terminator makes no difference once the line is stripped. */
  lemma StripDropsNewline(seg: string)
    ensures Strip(seg + "\n") == Strip(seg)
  {
    TrimLeftAppend(seg, "\n");
    var t := TrimLeft(seg);
    if t != [] {
      assert (t + "\n")[..|t + "\n"| - 1] == t;
    }
  }

  /** The round trip of one written name: `(x + '\n').strip() == x` for a stripped x. */
  lemma StripWrittenName(x: string)
    requires IsStripped(x)
    ensures Strip(x + "\n") == x
  {
    StripDropsNewline(x);
    StripStripped(x);
  }

  /** A line as `file.xreadlines()` yields it: non-empty, a newline only at its end. */
  predicate IsLine(x: string)
  {
    x != [] && '\n' !in x[..|x| - 1]
  }

  /** `strip()` only removes characters: one absent before is absent after. */
  lemma StripKeepsOut(s: string, c: char)
    requires c !in s
    ensures c !in Strip(s)
  {
    var t := TrimLeft(s);
    TrimLeftSuffix(s);
    TrimRightPrefix(t);
    var r := Strip(s);
    assert forall k :: 0 <= k < |r| ==> r[k] == t[k] == s[|s| - |t| + k];
  }

  /** A stripped line holds no newline. */
  lemma StripLineHasNoNewline(x: string)
    requires IsLine(x)
    ensures '\n' !in Strip(x)
  {
    var seg := x[..|x| - 1];
    if x[|x| - 1] == '\n' {
      assert x == seg + "\n";
      StripDropsNewline(seg);
      StripKeepsOut(seg, '\n');
    } else {
      assert x == seg + [x[|x| - 1]];
      StripKeepsOut(x, '\n');
    }
  }

  /** Length of the first line of `s`: up to and including its first newline. */
  function FirstLineLength(s: string): (k: nat)
    requires s != []
    ensures 0 < k <= |s|
    ensures '\n' !in s[..k - 1]
    ensures k < |s| ==> s[k - 1] == '\n'
  {
    if s[0] == '\n' || |s| == 1 then 1
    else
      var k := 1 + FirstLineLength(s[1..]);
      assert s[..k - 1] == [s[0]] + s[1..][..k - 2];
      k
  }

  /** A line ends at the first newline. */
  lemma {:induction false} FirstLineLengthOf(x: string, rest: string)
    requires '\n' !in x
    ensures FirstLineLength(x + "\n" + rest) == |x| + 1
  {
    var s := x + "\n" + rest;
    if x != [] {
      assert s[0] == x[0] && |s| > 1;
      assert s[1..] == x[1..] + "\n" + rest;
      FirstLineLengthOf(x[1..], rest);
    }
  }

  /** Concatenation of a list of strings. */
  function Concat(l: seq<string>): (r: string)
    ensures |l| == 0 ==> r == []
  {
    if l == [] then [] else l[0] + Concat(l[1..])
  }

  /**
   * The lines `file.xreadlines()` yields for a file holding `s`: every
   * line keeps its newline, the last one may lack it.
   */
  function Lines(s: string): (r: seq<string>)
    ensures Concat(r) == s
    ensures forall i :: 0 <= i < |r| ==> IsLine(r[i]) && (i < |r| - 1 ==> r[i][|r[i]| - 1] == '\n')
    decreases |s|
  {
    if s == [] then []
    else
      var k := FirstLineLength(s);
      var first, rest := s[..k], Lines(s[k..]);
      assert first[..k - 1] == s[..k - 1];
      assert IsLine(first);
      assert rest != [] ==> first[k - 1] == '\n';
      var r := [first] + rest;
      assert r[1..] == rest;
      assert s == first + s[k..];
      assert forall i :: 1 <= i < |r| ==> r[i] == rest[i - 1];
      r
  }

  /** What `f.writelines([x + '\n' for x in names])` leaves in the file. */
  function LinesText(names: seq<string>): string
  {
    if names == [] then [] else names[0] + "\n" + LinesText(names[1..])
  }

  /** The newline-terminated form of each name, as written. */
  function Terminated(names: seq<string>): (r: seq<string>)
    ensures |r| == |names|
    ensures forall k :: 0 <= k < |r| ==> r[k] == names[k] + "\n"
  {
    seq(|names|, k requires 0 <= k < |names| => names[k] + "\n")
  }

  /**
   * Reading back a file written one name per line gives each name with
   * its terminator again, provided no name holds a newline.
   */
  lemma {:induction false} LinesOfLinesText(names: seq<string>)
    requires forall k :: 0 <= k < |names| ==> '\n' !in names[k]
    ensures Lines(LinesText(names)) == Terminated(names)
  {
    if names != [] {
      var x := names[0];
      var rest := LinesText(names[1..]);
      assert LinesText(names) == x + "\n" + rest;
      LinesCons(x, rest);
      LinesOfLinesText(names[1..]);
      var t, u := Terminated(names), Terminated(names[1..]);
      assert t == [x + "\n"] + u by {
        assert forall k :: 1 <= k < |t| ==> t[k] == u[k - 1];
      }
    }
  }

  /** A first line ended by a newline, then the lines of the rest. */
  lemma LinesCons(x: string, rest: string)
    requires '\n' !in x
    ensures Lines(x + "\n" + rest) == [x + "\n"] + Lines(rest)
  {
    var s := x + "\n" + rest;
    FirstLineLengthOf(x, rest);
    var k := FirstLineLength(s);
    assert s[..k] == x + "\n";
    assert s[k..] == rest;
  }

  /** One decimal digit. */
  function DigitChar(d: nat): (c: char)
    requires d < 10
    ensures '0' <= c <= '9'
  {
    ['0', '1', '2', '3', '4', '5', '6', '7', '8', '9'][d]
  }

  /** `str(n)` for a non-negative integer: its decimal digits, no leading zero. */
  function NatToString(n: nat): (r: string)
    ensures r != []
    ensures forall c :: c in r ==> '0' <= c <= '9'
    ensures (|r| == 1) == (n < 10)
    ensures |r| > 1 ==> r[0] != '0'
  {
    if n < 10 then [DigitChar(n)]
    else
      var p := NatToString(n / 10);
      p + [DigitChar(n % 10)]
  }

  lemma DigitCharInjective(a: nat, b: nat)
    requires a < 10 && b < 10 && DigitChar(a) == DigitChar(b)
    ensures a == b
  {
  }

  /** Different numbers print differently. */
  lemma {:induction false} NatToStringInjective(m: nat, n: nat)
    requires NatToString(m) == NatToString(n)
    ensures m == n
    decreases m
  {
    var s := NatToString(m);
    if m < 10 {
      DigitCharInjective(m, n);
    } else {
      var k := |s| - 1;
      assert s[..k] == NatToString(m / 10) && s[..k] == NatToString(n / 10);
      assert s[k] == DigitChar(m % 10) && s[k] == DigitChar(n % 10);
      DigitCharInjective(m % 10, n % 10);
      NatToStringInjective(m / 10, n / 10);
    }
  }

  /** `sep.join(l)`. */
  function Join(l: seq<string>, sep: char): string
  {
    if l == [] then []
    else if |l| == 1 then l[0]
    else l[0] + [sep] + Join(l[1..], sep)
  }

  /** `s.split(sep)`: the pieces between separators, always at least one. */
  function Split(s: string, sep: char): (r: seq<string>)
    ensures |r| >= 1
    ensures forall k :: 0 <= k < |r| ==> sep !in r[k]
    decreases |s|
  {
    if sep !in s then [s]
    else
      var i := FirstIndex(s, sep);
      [s[..i]] + Split(s[i + 1..], sep)
  }

  /** Joining the pieces of a split gives back the string. */
  lemma {:induction false} JoinSplit(s: string, sep: char)
    ensures Join(Split(s, sep), sep) == s
    decreases |s|
  {
    if sep in s {
      var i := FirstIndex(s, sep);
      var pieces, tail := Split(s, sep), Split(s[i + 1..], sep);
      assert pieces == [s[..i]] + tail;
      assert |pieces| > 1 && pieces[0] == s[..i] && pieces[1..] == tail;
      assert Join(pieces, sep) == s[..i] + [sep] + Join(tail, sep);
      JoinSplit(s[i + 1..], sep);
      assert s == s[..i] + [sep] + s[i + 1..];
    }
  }

  /** Index of the first occurrence of `c` in `s`. */
  function FirstIndex(s: string, c: char): (i: nat)
    requires c in s
    ensures i < |s| && s[i] == c && c !in s[..i]
  {
    if s[0] == c then 0
    else
      var i := 1 + FirstIndex(s[1..], c);
      assert s[..i] == [s[0]] + s[1..][..i - 1];
      i
  }

  /** The first separator is the one right after a separator-free prefix. */
  lemma {:induction false} FirstIndexOf(x: string, c: char, rest: string)
    requires c !in x
    ensures c in x + [c] + rest && FirstIndex(x + [c] + rest, c) == |x|
  {
    var s := x + [c] + rest;
    assert s[|x|] == c;
    if x != [] {
      assert s[0] == x[0];
      assert s[1..] == x[1..] + [c] + rest;
      FirstIndexOf(x[1..], c, rest);
    }
  }

  /** Splitting at a first separator: the piece before it, then the rest split. */
  lemma SplitCons(x: string, sep: char, rest: string)
    requires sep !in x
    ensures Split(x + [sep] + rest, sep) == [x] + Split(rest, sep)
  {
    var s := x + [sep] + rest;
    FirstIndexOf(x, sep, rest);
    assert s[..|x|] == x;
    assert s[|x| + 1..] == rest;
  }

  /** Splitting what was joined gives back the pieces, when none holds the separator. */
  lemma {:induction false} SplitJoin(l: seq<string>, sep: char)
    requires |l| >= 1
    requires forall k :: 0 <= k < |l| ==> sep !in l[k]
    ensures Split(Join(l, sep), sep) == l
  {
    if |l| > 1 {
      SplitCons(l[0], sep, Join(l[1..], sep));
      SplitJoin(l[1..], sep);
      assert l == [l[0]] + l[1..];
    }
  }

  /** The pieces of a joined string, each stripped, leave the join stripped. */
  lemma {:induction false} JoinStripped(l: seq<string>, sep: char)
    requires |l| >= 1 && !IsSpace(sep)
    requires forall k :: 0 <= k < |l| ==> IsStripped(l[k])
    ensures IsStripped(Join(l, sep))
  {
    if |l| > 1 {
      JoinStripped(l[1..], sep);
      var rest := Join(l[1..], sep);
      if rest == [] {
        assert Join(l, sep) == l[0] + [sep];
      }
    }
  }

  /** A character that is neither the separator nor in any piece is not in the join. */
  lemma {:induction false} JoinExcludes(l: seq<string>, sep: char, c: char)
    requires c != sep
    requires forall k :: 0 <= k < |l| ==> c !in l[k]
    ensures c !in Join(l, sep)
  {
    if |l| > 1 {
      JoinExcludes(l[1..], sep, c);
    }
  }

  /** Writing one more line after some lines. */
  lemma {:induction false} LinesTextSnoc(names: seq<string>, x: string)
    ensures LinesText(names + [x]) == LinesText(names) + x + "\n"
  {
    if names != [] {
      assert (names + [x])[1..] == names[1..] + [x];
      LinesTextSnoc(names[1..], x);
    }
  }
}
