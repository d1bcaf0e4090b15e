/**
 * The Python string and path operations the script relies on, over
 * `string` (`seq<char>`): `in`, `str.find`, `str.endswith`,
 * `str.split(sep)[0]`, `str.split(',')` and its inverse `','.join`,
 * `int` and `str` on integers, `os.path.basename` and `os.path.join`
 * (POSIX flavour).
 */
module PyStr {

  datatype Option<T> = None | Some(value: T)

  /** `pat` occurs in `s` starting at index `i`. */
  predicate OccursAt(s: string, pat: string, i: int)
  {
    0 <= i && i + |pat| <= |s| && s[i..i + |pat|] == pat
  }

  /** `s.find(pat, from)`: the first index at or after `from` where `pat` occurs. */
  function FindFrom(s: string, pat: string, from: nat): (r: Option<nat>)
    ensures r.Some? ==> from <= r.value && OccursAt(s, pat, r.value)
    ensures forall j :: from <= j && (r.None? || j < r.value) ==> !OccursAt(s, pat, j)
    decreases |s| - from
  {
    if from + |pat| > |s| then None
    else if s[from..from + |pat|] == pat then Some(from)
    else FindFrom(s, pat, from + 1)
  }

  function Find(s: string, pat: string): Option<nat>
  {
    FindFrom(s, pat, 0)
  }

  /** Python's `pat in s` for strings. */
  predicate Contains(s: string, pat: string)
  {
    Find(s, pat).Some?
  }

  /** `pat in s` holds exactly when `pat` occurs somewhere in `s`. */
  lemma ContainsIff(s: string, pat: string)
    ensures Contains(s, pat) <==> exists i :: OccursAt(s, pat, i)
  {
  }

  /** `s.endswith(suffix)`. */
  predicate EndsWith(s: string, suffix: string)
  {
    |suffix| <= |s| && s[|s| - |suffix|..] == suffix
  }

  /** `s.endswith(suffix)` holds exactly when `s` is some text followed by `suffix`. */
  lemma EndsWithIff(s: string, suffix: string)
    ensures EndsWith(s, suffix) <==> exists t :: s == t + suffix
  {
    if EndsWith(s, suffix) {
      assert s == s[..|s| - |suffix|] + suffix;
    }
    if t :| s == t + suffix {
      assert s[|s| - |suffix|..] == (t + suffix)[|t|..] == suffix;
    }
  }

  /** `s.split(sep)[0]`: the text before the first `sep`, or all of `s`. */
  function Before(s: string, sep: string): (r: string)
    requires |sep| > 0
    ensures r <= s
    ensures forall j :: !OccursAt(r, sep, j)
    ensures forall j :: 0 <= j < |r| ==> !OccursAt(s, sep, j)
    ensures Contains(s, sep) ==> OccursAt(s, sep, |r|)
    ensures !Contains(s, sep) ==> r == s
  {
    match Find(s, sep)
    case None => s
    case Some(i) =>
      assert forall j :: OccursAt(s[..i], sep, j) ==> OccursAt(s, sep, j) by {
        forall j | OccursAt(s[..i], sep, j) ensures OccursAt(s, sep, j) {
          assert s[..i][j..j + |sep|] == s[j..j + |sep|];
        }
      }
      s[..i]
  }

  /** `s.split(c)` for a one-character separator. */
  function Split(s: string, c: char): (parts: seq<string>)
    ensures |parts| >= 1
    decreases |s|
  {
    if s == [] then [""]
    else
      var rest := Split(s[1..], c);
      if s[0] == c then [""] + rest
      else [[s[0]] + rest[0]] + rest[1..]
  }

  /** `c.join(parts)`: the inverse of `Split`. */
  function JoinWith(parts: seq<string>, c: char): string
    requires |parts| >= 1
    decreases |parts|
  {
    if |parts| == 1 then parts[0] else parts[0] + [c] + JoinWith(parts[1..], c)
  }

  /** Joining the pieces of a split gives back the input. */
  lemma {:induction false} JoinSplit(s: string, c: char)
    ensures JoinWith(Split(s, c), c) == s
    decreases |s|
  {
    if s != [] {
      JoinSplit(s[1..], c);
      var rest := Split(s[1..], c);
      if s[0] == c {
        assert s == [c] + s[1..];
      } else if |rest| == 1 {
        assert s == [s[0]] + s[1..];
      } else {
        assert JoinWith(rest, c) == rest[0] + [c] + JoinWith(rest[1..], c);
        assert s == [s[0]] + s[1..];
      }
    }
  }

  /** No piece of a split contains the separator. */
  lemma {:induction false} SplitPiecesFree(s: string, c: char)
    ensures forall k :: 0 <= k < |Split(s, c)| ==> c !in Split(s, c)[k]
    decreases |s|
  {
    if s != [] {
      SplitPiecesFree(s[1..], c);
    }
  }

  /** Splitting a string that starts with `ch`: a separator opens a new piece, anything else joins the first. */
  lemma SplitCons(ch: char, s: string, c: char)
    ensures Split([ch] + s, c) ==
      if ch == c then [""] + Split(s, c) else [[ch] + Split(s, c)[0]] + Split(s, c)[1..]
  {
    assert ([ch] + s)[1..] == s;
  }

  /** Splitting a join of separator-free pieces gives back the pieces. */
  lemma {:induction false} SplitJoin(parts: seq<string>, c: char)
    requires |parts| >= 1
    requires forall k :: 0 <= k < |parts| ==> c !in parts[k]
    ensures Split(JoinWith(parts, c), c) == parts
    decreases |parts|, |parts[0]|
  {
    var p := parts[0];
    if p == [] {
      if |parts| > 1 {
        SplitJoin(parts[1..], c);
        assert JoinWith(parts, c) == [c] + JoinWith(parts[1..], c);
        SplitCons(c, JoinWith(parts[1..], c), c);
        assert parts == [""] + parts[1..];
      }
    } else {
      var shorter := [p[1..]] + parts[1..];
      forall k | 0 <= k < |shorter| ensures c !in shorter[k] {
        if k == 0 { assert forall x :: x in p[1..] ==> x in p; }
      }
      SplitJoin(shorter, c);
      var rest := JoinWith(shorter, c);
      assert JoinWith(parts, c) == [p[0]] + rest by {
        if |parts| > 1 {
          assert rest == p[1..] + [c] + JoinWith(parts[1..], c);
        }
      }
      assert p[0] != c by { assert p[0] in p; }
      SplitCons(p[0], rest, c);
      assert [p[0]] + p[1..] == p;
      assert parts == [p] + parts[1..];
    }
  }

  /**
   * A character `int` skips before and after the digits: the ASCII
   * whitespace (space, `\t`, `\n`, `\v`, `\f`, `\r`) and every non-ASCII
   * character for which `str.isspace()` holds. U+001C to U+001F, which
   * `isspace` accepts, are not among them: `int` rejects them.
   */
  predicate IntSpace(ch: char)
  {
    ch == ' ' || ('\t' <= ch <= '\r') ||
    ch == '\U{85}' || ch == '\U{a0}' || ch == '\U{1680}' ||
    ('\U{2000}' <= ch <= '\U{200a}') || ch == '\U{2028}' || ch == '\U{2029}' ||
    ch == '\U{202f}' || ch == '\U{205f}' || ch == '\U{3000}'
  }

  predicate AllIntSpace(s: string)
  {
    forall k :: 0 <= k < |s| ==> IntSpace(s[k])
  }

  function TrimLeft(s: string): string
    decreases |s|
  {
    if s != [] && IntSpace(s[0]) then TrimLeft(s[1..]) else s
  }

  function TrimRight(s: string): string
    decreases |s|
  {
    if s != [] && IntSpace(s[|s| - 1]) then TrimRight(s[..|s| - 1]) else s
  }

  /** `s` without the whitespace `int` ignores at both ends. */
  function Strip(s: string): string
  {
    TrimLeft(TrimRight(s))
  }

  /** Surrounding whitespace is exactly what `Strip` removes. */
  lemma StripPadded(ws1: string, core: string, ws2: string)
    requires AllIntSpace(ws1) && AllIntSpace(ws2)
    requires core != [] && !IntSpace(core[0]) && !IntSpace(core[|core| - 1])
    ensures Strip(ws1 + core + ws2) == core
  {
    TrimRightPadded(ws1 + core, ws2);
    TrimLeftPadded(ws1, core);
  }

  lemma {:induction false} TrimRightPadded(x: string, ws: string)
    requires AllIntSpace(ws)
    requires x != [] && !IntSpace(x[|x| - 1])
    ensures TrimRight(x + ws) == x
    decreases |ws|
  {
    if ws != [] {
      assert (x + ws)[..|x + ws| - 1] == x + ws[..|ws| - 1];
      TrimRightPadded(x, ws[..|ws| - 1]);
    } else {
      assert x + ws == x;
    }
  }

  lemma {:induction false} TrimLeftPadded(ws: string, x: string)
    requires AllIntSpace(ws)
    requires x != [] && !IntSpace(x[0])
    ensures TrimLeft(ws + x) == x
    decreases |ws|
  {
    if ws != [] {
      assert (ws + x)[1..] == ws[1..] + x;
      TrimLeftPadded(ws[1..], x);
    } else {
      assert ws + x == x;
    }
  }

  /** `os.path.basename(p)`: the text after the last `/`. */
  function Basename(p: string): (r: string)
    ensures '/' !in r
    decreases |p|
  {
    if p == [] || p[|p| - 1] == '/' then []
    else Basename(p[..|p| - 1]) + [p[|p| - 1]]
  }

  /** The basename is a suffix of the path. */
  lemma {:induction false} BasenameIsSuffix(p: string)
    ensures EndsWith(p, Basename(p))
    decreases |p|
  {
    if p != [] && p[|p| - 1] != '/' {
      var q, c := p[..|p| - 1], p[|p| - 1];
      BasenameIsSuffix(q);
      var rq := Basename(q);
      assert Basename(p) == rq + [c];
      assert p == q + [c];
      assert p[|q| - |rq|..] == q[|q| - |rq|..] + [c];
    }
  }

  /** A basename shorter than the path follows a `/`. */
  lemma {:induction false} BasenameFollowsSlash(p: string)
    ensures |Basename(p)| <= |p|
    ensures |Basename(p)| < |p| ==> p[|p| - |Basename(p)| - 1] == '/'
    decreases |p|
  {
    if p != [] && p[|p| - 1] != '/' {
      var q, c := p[..|p| - 1], p[|p| - 1];
      BasenameFollowsSlash(q);
      var rq := Basename(q);
      assert Basename(p) == rq + [c];
      if |rq| < |q| {
        assert p[|q| - |rq| - 1] == q[|q| - |rq| - 1];
      }
    }
  }

  /** The basename is the longest slash-free suffix of the path. */
  lemma BasenameIsLastSegment(p: string)
    ensures var r := Basename(p);
      EndsWith(p, r) && (r == p || p[|p| - |r| - 1] == '/')
  {
    BasenameIsSuffix(p);
    BasenameFollowsSlash(p);
  }

  /** `os.path.join(a, b)` on POSIX. */
  function Join(a: string, b: string): (r: string)
    ensures EndsWith(r, b)
  {
    if |b| > 0 && b[0] == '/' then b
    else if a == [] || a[|a| - 1] == '/' then a + b
    else a + "/" + b
  }

  /** The basename of a concatenation is decided by its last `/`. */
  lemma {:induction false} BasenameConcat(x: string, y: string)
    ensures Basename(x + y) == if '/' in y then Basename(y) else Basename(x) + y
    decreases |y|
  {
    if y == [] {
      assert x + y == x;
    } else {
      var y' := y[..|y| - 1];
      assert (x + y)[..|x + y| - 1] == x + y';
      assert y == y' + [y[|y| - 1]];
      BasenameConcat(x, y');
    }
  }

  /** Joining a directory never changes the basename of the name joined. */
  lemma BasenameJoin(a: string, b: string)
    ensures Basename(Join(a, b)) == Basename(b)
  {
    if |b| > 0 && b[0] == '/' {
    } else {
      var dir := if a == [] || a[|a| - 1] == '/' then a else a + "/";
      assert Join(a, b) == dir + b;
      assert Basename(dir) == [];
      BasenameConcat(dir, b);
      BasenameConcat([], b);
      assert [] + b == b;
    }
  }

  /** A path ending in a slash-free suffix has a basename ending in it too. */
  lemma BasenameKeepsSuffix(p: string, suffix: string)
    requires EndsWith(p, suffix) && '/' !in suffix
    ensures EndsWith(Basename(p), suffix)
  {
    var x := p[..|p| - |suffix|];
    assert p == x + suffix;
    BasenameConcat(x, suffix);
  }

  predicate IsDigit(ch: char)
  {
    '0' <= ch <= '9'
  }

  predicate AllDigits(s: string)
  {
    forall k :: 0 <= k < |s| ==> IsDigit(s[k])
  }

  /** The value of a run of decimal digits, most significant first. */
  function DigitsValue(ds: string): nat
    requires AllDigits(ds)
    decreases |ds|
  {
    if ds == [] then 0
    else DigitsValue(ds[..|ds| - 1]) * 10 + (ds[|ds| - 1] as int - '0' as int)
  }

  /** The decimal digits of `n` without leading zeros; they read back as `n`. */
  function Digits(n: nat): (ds: string)
    ensures ds != [] && AllDigits(ds)
    ensures DigitsValue(ds) == n
    decreases n
  {
    var last := ('0' as int + n % 10) as char;
    if n < 10 then [last]
    else
      var ds := Digits(n / 10) + [last];
      assert ds[..|ds| - 1] == Digits(n / 10);
      ds
  }

  /** Python's `str(n)` for an integer. */
  function IntToStr(n: int): string
  {
    if n < 0 then "-" + Digits(-n) else Digits(n)
  }

  /** Base-10 integer text: decimal digits, at least one, after an optional sign. */
  predicate IntegerText(t: string)
  {
    t != [] && (AllDigits(t) || ((t[0] == '-' || t[0] == '+') && |t| > 1 && AllDigits(t[1..])))
  }

  /**
   * Python's `int(s)` on base-10 text: surrounding whitespace, an optional
   * sign and at least one decimal digit; `None` where `int` raises ValueError.
   */
  function ParseInt(s: string): (r: Option<int>)
    ensures r.Some? <==> IntegerText(Strip(s))
    ensures r.Some? ==> var t := Strip(s);
      t != [] && (t[0] == '-' || t[0] == '+' || IsDigit(t[0])) &&
      forall k :: 1 <= k < |t| ==> IsDigit(t[k])
    ensures r.Some? && r.value < 0 ==> Strip(s)[0] == '-'
  {
    var t := Strip(s);
    if t == [] then None
    else if t[0] == '-' || t[0] == '+' then
      var ds := t[1..];
      if ds != [] && AllDigits(ds) then
        var v: int := DigitsValue(ds);
        Some(if t[0] == '-' then -v else v)
      else None
    else if AllDigits(t) then Some(DigitsValue(t))
    else None
  }

  /** A word starting with anything but a sign or a digit is not an integer. */
  lemma ParseIntRejects(s: string)
    requires s != [] && !IntSpace(s[0]) && !IntSpace(s[|s| - 1])
    requires s[0] != '-' && s[0] != '+' && !IsDigit(s[0])
    ensures ParseInt(s).None?
  {
    StripPadded("", s, "");
    assert "" + s + "" == s;
  }

  /**
   * `int` skips ASCII whitespace such as a space or a newline, but not the
   * separator U+001C, which `str.isspace()` accepts.
   */
  lemma ParseIntWhitespace()
    ensures ParseInt(" 5\n") == Some(5)
    ensures ParseInt("\U{1c}5").None?
  {
    assert IntToStr(5) == "5";
    ParseIntToStr(5, " ", "\n");
    assert " " + "5" + "\n" == " 5\n";
    ParseIntRejects("\U{1c}5");
  }

  /** `int` reads back what `str` prints, whatever whitespace `int` skips surrounds it. */
  lemma ParseIntToStr(n: int, ws1: string, ws2: string)
    requires AllIntSpace(ws1) && AllIntSpace(ws2)
    ensures ParseInt(ws1 + IntToStr(n) + ws2) == Some(n)
  {
    var t := IntToStr(n);
    var ds := Digits(if n < 0 then -n else n);
    assert !IntSpace(t[0]) by {
      if n >= 0 { assert IsDigit(ds[0]); }
    }
    assert !IntSpace(t[|t| - 1]) by {
      assert t[|t| - 1] == ds[|ds| - 1] && IsDigit(ds[|ds| - 1]);
    }
    StripPadded(ws1, t, ws2);
    if n < 0 {
      assert t[1..] == ds;
    } else {
      assert IsDigit(t[0]);
    }
  }
}
