/** The JavaScript and Node.js built-ins the core relies on: truthiness,
    `String(n)` of a non-negative integer, `split('.').pop()`,
    `path.extname`, `substring` and ASCII case folding. */
module Js {

  /** A JSON value as it arrives in a request body. `Undefined` is a missing
      property; `Composite` is any array or object (always truthy). Numbers
      are integers here. */
  datatype Value = Undefined | Null | Bool(b: bool) | Num(n: int) | Str(s: string) | Composite

  /** JavaScript truthiness. */
  predicate Truthy(v: Value) {
    match v
    case Undefined => false
    case Null => false
    case Bool(b) => b
    case Num(n) => n != 0
    case Str(s) => s != ""
    case Composite => true
  }

  /** `a || b`: the first operand when it is truthy, else the second; the
      result is truthy exactly when one of the operands is. */
  function Or(a: Value, b: Value): (r: Value)
    ensures Truthy(a) ==> r == a
    ensures !Truthy(a) ==> r == b
    ensures Truthy(r) <==> Truthy(a) || Truthy(b)
  {
    if Truthy(a) then a else b
  }

  // ---------------------------------------------------------------------
  // Decimal rendering of a non-negative integer (template literal `${n}`)

  predicate IsDigit(c: char) {
    '0' <= c <= '9'
  }

  predicate AllDigits(s: string) {
    forall i :: 0 <= i < |s| ==> IsDigit(s[i])
  }

  function DigitChar(d: nat): (c: char)
    requires d < 10
    ensures IsDigit(c) && c as int - '0' as int == d
  {
    (d + '0' as int) as char
  }

  function DecimalString(n: nat): (s: string)
    ensures |s| > 0 && AllDigits(s)
    ensures |s| > 1 ==> s[0] != '0'
    decreases n
  {
    if n < 10 then [DigitChar(n)] else DecimalString(n / 10) + [DigitChar(n % 10)]
  }

  /** The number a string of digits denotes, read left to right. */
  function DecimalValue(s: string): nat
    requires AllDigits(s)
  {
    if s == [] then 0 else DecimalValue(s[..|s| - 1]) * 10 + (s[|s| - 1] as int - '0' as int)
  }

  /** Reading back the rendering gives the number: timestamps are never
      conflated by their decimal form. */
  lemma {:induction false} DecimalRoundTrip(n: nat)
    ensures DecimalValue(DecimalString(n)) == n
    decreases n
  {
    if n >= 10 {
      var s := DecimalString(n);
      assert s[..|s| - 1] == DecimalString(n / 10);
      DecimalRoundTrip(n / 10);
    }
  }

  lemma DecimalStringInjective(m: nat, n: nat)
    requires DecimalString(m) == DecimalString(n)
    ensures m == n
  {
    DecimalRoundTrip(m);
    DecimalRoundTrip(n);
  }

  // ---------------------------------------------------------------------
  // Case folding, as a regular expression with the `i` flag (and without
  // the `u` flag) applies it to ASCII letters

  function LowerChar(c: char): char {
    if 'A' <= c <= 'Z' then (c as int - 'A' as int + 'a' as int) as char else c
  }

  function Lower(s: string): (r: string)
    ensures |r| == |s| && forall i :: 0 <= i < |s| ==> r[i] == LowerChar(s[i])
  {
    seq(|s|, i requires 0 <= i < |s| => LowerChar(s[i]))
  }

  // ---------------------------------------------------------------------
  // Text after the last occurrence of a character

  /** The index of the last `c` in `s`, or -1 when there is none
      (`s.lastIndexOf(c)`). */
  function LastIndexOf(s: string, c: char): (k: int)
    ensures -1 <= k < |s|
    ensures k >= 0 ==> s[k] == c
    ensures forall i :: k < i < |s| ==> s[i] != c
  {
    if s == [] then -1
    else if s[|s| - 1] == c then |s| - 1
    else LastIndexOf(s[..|s| - 1], c)
  }

  /** Any index with the last-occurrence property is the one LastIndexOf
      finds. */
  lemma LastIndexUnique(s: string, c: char, k: int)
    requires -1 <= k < |s|
    requires k >= 0 ==> s[k] == c
    requires forall i :: k < i < |s| ==> s[i] != c
    ensures LastIndexOf(s, c) == k
  {
  }

  /** The part of `s` after its last `c`, or all of `s` when it has no `c`;
      for `c == '.'` this is `s.split('.').pop()`. */
  function AfterLast(s: string, c: char): (r: string)
    ensures |r| <= |s| && r == s[|s| - |r|..]
    ensures c !in r
    ensures |r| < |s| ==> s[|s| - |r| - 1] == c
  {
    s[LastIndexOf(s, c) + 1..]
  }

  /** The position of the last `c` pins down AfterLast. */
  lemma AfterLastAt(s: string, c: char, k: nat)
    requires k < |s| && s[k] == c
    requires forall i :: k < i < |s| ==> s[i] != c
    ensures AfterLast(s, c) == s[k + 1..]
  {
    LastIndexUnique(s, c, k);
  }

  lemma AfterLastNone(s: string, c: char)
    requires c !in s
    ensures AfterLast(s, c) == s
  {
    LastIndexUnique(s, c, -1);
  }

  /** `s.endsWith(suffix)` */
  predicate EndsWith(s: string, suffix: string) {
    |suffix| <= |s| && s[|s| - |suffix|..] == suffix
  }

  /** For a dot-free `ext`, ending with "." + ext is the same as having a
      `.` whose following text is `ext`. */
  lemma EndsWithDotExt(s: string, ext: string)
    requires '.' !in ext
    ensures EndsWith(s, "." + ext) <==> |AfterLast(s, '.')| < |s| && AfterLast(s, '.') == ext
  {
    if EndsWith(s, "." + ext) {
      DotExtTail(s, ext);
    }
    if |AfterLast(s, '.')| < |s| && AfterLast(s, '.') == ext {
      TailDotExt(s, ext);
    }
  }

  lemma DotExtTail(s: string, ext: string)
    requires '.' !in ext && EndsWith(s, "." + ext)
    ensures AfterLast(s, '.') == ext
  {
    var k := |s| - |ext| - 1;
    var suffix := "." + ext;
    assert s[k..] == suffix;
    assert s[k] == suffix[0] == '.';
    forall i | k < i < |s| ensures s[i] != '.' {
      assert s[i] == suffix[i - k] == ext[i - k - 1];
    }
    AfterLastAt(s, '.', k);
    assert s[k + 1..] == suffix[1..] == ext;
  }

  lemma TailDotExt(s: string, ext: string)
    requires |AfterLast(s, '.')| < |s| && AfterLast(s, '.') == ext
    ensures EndsWith(s, "." + ext)
  {
    var k := |s| - |ext| - 1;
    assert s[k] == '.';
    assert s[k + 1..] == ext;
    assert s[k..] == [s[k]] + s[k + 1..];
  }

  /** Case folding leaves dots where they are. */
  lemma LowerAfterLast(s: string)
    ensures AfterLast(Lower(s), '.') == Lower(AfterLast(s, '.'))
  {
    var k := LastIndexOf(s, '.');
    assert LastIndexOf(Lower(s), '.') == k by {
      LowerKeepsDots(s);
      LastIndexUnique(Lower(s), '.', k);
    }
    LowerSuffix(s, k + 1);
  }

  lemma LowerKeepsDots(s: string)
    ensures forall i :: 0 <= i < |s| ==> (Lower(s)[i] == '.' <==> s[i] == '.')
  {
  }

  lemma LowerSuffix(s: string, j: nat)
    requires j <= |s|
    ensures Lower(s)[j..] == Lower(s[j..])
  {
  }

  /** Only the last part that holds a `c` matters for AfterLast. */
  lemma AfterLastConcat(a: string, b: string, c: char)
    requires c in b
    ensures AfterLast(a + b, c) == AfterLast(b, c)
  {
    var k := LastIndexOf(b, c);
    var ab := a + b;
    assert k >= 0;
    forall i | |a| + k < i < |ab| ensures ab[i] != c {
      assert ab[i] == b[i - |a|];
    }
    AfterLastAt(ab, c, |a| + k);
    assert ab[|a| + k + 1..] == b[k + 1..];
  }

  /** A dot-free tail after a `.` is what AfterLast finds, and the text
      before that `.` is the stem. */
  lemma AfterLastDotTail(stem: string, tail: string)
    requires '.' !in tail
    ensures var s := stem + "." + tail;
            AfterLast(s, '.') == tail && |tail| < |s| && s[..|s| - |tail| - 1] == stem
  {
    var s := stem + "." + tail;
    assert s == stem + ("." + tail);
    assert ("." + tail)[0] == '.';
    AfterLastAt("." + tail, '.', 0);
    assert ("." + tail)[1..] == tail;
    AfterLastConcat(stem, "." + tail, '.');
    assert s[..|stem|] == stem;
  }

  /** `s` without its trailing run of `c`. */
  function TrimEnd(s: string, c: char): (r: string)
    ensures |r| <= |s| && r == s[..|r|]
    ensures r == [] || r[|r| - 1] != c
    ensures forall i :: |r| <= i < |s| ==> s[i] == c
  {
    if s == [] || s[|s| - 1] != c then s else TrimEnd(s[..|s| - 1], c)
  }

  /** Node's POSIX `path.extname`: the last `.` of the base name (after any
      trailing `/` is dropped) to its end; empty when the base name has no
      `.`, when its only `.`-led part is the whole name, or when it is `..`. */
  function Extname(p: string): (r: string)
    ensures r == [] || (r[0] == '.' && '.' !in r[1..] && '/' !in r)
    ensures r != [] ==> EndsWith(TrimEnd(p, '/'), r)
  {
    var trimmed := TrimEnd(p, '/');
    var base := AfterLast(trimmed, '/');
    var tail := AfterLast(base, '.');
    if |tail| == |base| then ""
    else if |tail| + 1 == |base| then ""
    else if base == ".." then ""
    else
      SuffixOfSuffix(trimmed, base, |tail| + 1);
      base[|base| - |tail| - 1..]
  }

  lemma SuffixOfSuffix(s: string, t: string, n: nat)
    requires |t| <= |s| && t == s[|s| - |t|..] && n <= |t|
    ensures EndsWith(s, t[|t| - n..])
  {
    assert t[|t| - n..] == s[|s| - n..];
  }

  /** For a plain file name (no `/`) whose last `.` is not its first
      character, and which is not `..`, the extension is that `.` and the
      text after it. */
  lemma ExtnameOfName(name: string)
    requires '/' !in name && LastIndexOf(name, '.') > 0 && name != ".."
    ensures Extname(name) == "." + AfterLast(name, '.')
  {
    var k := LastIndexOf(name, '.');
    assert name[|name| - 1] != '/';
    assert TrimEnd(name, '/') == name;
    AfterLastNone(name, '/');
    assert AfterLast(name, '.') == name[k + 1..];
    assert name[k..] == ['.'] + name[k + 1..];
  }

  /** A plain file name without a `.`, or whose only `.` leads it, has no
      extension. */
  lemma ExtnameOfNameNone(name: string)
    requires '/' !in name && LastIndexOf(name, '.') <= 0
    ensures Extname(name) == ""
  {
    PlainNameBase(name);
  }

  /** A name without `/` is its own base name. */
  lemma PlainNameBase(name: string)
    requires '/' !in name
    ensures AfterLast(TrimEnd(name, '/'), '/') == name
  {
    assert name == [] || name[|name| - 1] != '/';
    assert TrimEnd(name, '/') == name;
    AfterLastNone(name, '/');
  }

  /** Appending an extension-shaped text to a name without `.` or `/` gives
      a name whose extension is that text. */
  lemma ExtnameAfterPlainPrefix(head: string, ext: string)
    requires |head| > 0 && '.' !in head && '/' !in head
    requires ext == [] || (ext[0] == '.' && '.' !in ext[1..] && '/' !in ext)
    ensures Extname(head + ext) == ext
  {
    var name := head + ext;
    assert name[|name| - 1] != '/';
    assert TrimEnd(name, '/') == name;
    assert '/' !in name;
    AfterLastNone(name, '/');
    if ext == [] {
      assert name == head;
      AfterLastNone(name, '.');
    } else {
      assert ext == ['.'] + ext[1..];
      AfterLastAt(ext, '.', 0);
      AfterLastConcat(head, ext, '.');
      assert name[0] == head[0] != '.';
    }
  }

  /** `s.substring(k)` for a non-negative start. */
  function Substring(s: string, k: nat): (r: string)
    ensures k <= |s| ==> r == s[k..]
    ensures k > |s| ==> r == ""
  {
    if k <= |s| then s[k..] else ""
  }
}
