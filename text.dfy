/**
 * Plain text handling used by the command interpreter and the type validator:
 * the C locale's whitespace class, whitespace-separated words, the fields a
 * delimiter-driven `getline` produces, splitting at the first colon, and
 * decimal digits.
 */
module Text {
  import opened Wrappers

  /** `isspace` in the C locale: space, tab, newline, vertical tab, form feed and carriage return. */
  predicate IsSpace(c: char) {
    c == ' ' || c == '\t' || c == '\n' || c == '\U{B}' || c == '\U{C}' || c == '\r'
  }

  /** A word as `>>` extracts it: non-empty and free of whitespace. */
  predicate IsWord(w: string) {
    w != [] && forall i | 0 <= i < |w| :: !IsSpace(w[i])
  }

  /** Number of whitespace characters at the start of `s`. */
  function LeadingSpace(s: string): (n: nat)
    ensures n <= |s|
    ensures forall i | 0 <= i < n :: IsSpace(s[i])
    ensures n < |s| ==> !IsSpace(s[n])
  {
    if s == [] || !IsSpace(s[0]) then 0 else 1 + LeadingSpace(s[1..])
  }

  /** Number of non-whitespace characters at the start of `s`. */
  function WordLength(s: string): (n: nat)
    ensures n <= |s|
    ensures forall i | 0 <= i < n :: !IsSpace(s[i])
    ensures n < |s| ==> IsSpace(s[n])
  {
    if s == [] || IsSpace(s[0]) then 0 else 1 + WordLength(s[1..])
  }

  /** The word `>>` reads from `s` (empty when `s` holds only whitespace). */
  function FirstWord(s: string): string {
    var j := LeadingSpace(s);
    s[j..j + WordLength(s[j..])]
  }

  /** What is left of `s` once `>>` has read a word: everything after it. */
  function DropWord(s: string): (r: string)
    ensures |r| <= |s|
    ensures LeadingSpace(s) < |s| ==> |r| < |s|
  {
    var j := LeadingSpace(s);
    assert j < |s| ==> !IsSpace(s[j..][0]);
    s[j + WordLength(s[j..])..]
  }

  /** What is left of `s` after `n` reads of a word. */
  function DropWords(s: string, n: nat): string {
    if n == 0 then s else DropWord(DropWords(s, n - 1))
  }

  /** The words of `s`, in order: the maximal runs of non-whitespace characters. */
  function Words(s: string): seq<string>
    decreases |s|
  {
    if LeadingSpace(s) == |s| then [] else [FirstWord(s)] + Words(DropWord(s))
  }

  /** Every word `>>` reads is non-empty and free of whitespace. */
  lemma {:induction false} AllWords(s: string)
    ensures forall k | 0 <= k < |Words(s)| :: IsWord(Words(s)[k])
    decreases |s|
  {
    if LeadingSpace(s) < |s| {
      var j := LeadingSpace(s);
      assert !IsSpace(s[j..][0]);
      assert IsWord(FirstWord(s));
      AllWords(DropWord(s));
      assert Words(s) == [FirstWord(s)] + Words(DropWord(s));
    }
  }

  /** One read of a word: it is the first of the words, and the words after it are the rest. */
  lemma WordsStep(s: string)
    ensures (Words(s) == []) == (LeadingSpace(s) == |s|)
    ensures Words(s) != [] ==> Words(s)[0] == FirstWord(s)
    ensures Words(DropWord(s)) == if Words(s) == [] then [] else Words(s)[1..]
  {
    if LeadingSpace(s) == |s| {
      NoWords(s);
    } else {
      SomeWords(s);
    }
  }

  lemma NoWords(s: string)
    requires LeadingSpace(s) == |s|
    ensures Words(s) == [] && DropWord(s) == [] && Words(DropWord(s)) == []
  {
    assert DropWord(s) == s[|s|..];
  }

  lemma SomeWords(s: string)
    requires LeadingSpace(s) < |s|
    ensures Words(s) == [FirstWord(s)] + Words(DropWord(s))
  {
  }

  /** The `k`-th word of `ws`, or the empty string when there are fewer words. */
  function WordAt(ws: seq<string>, k: nat): string {
    if k < |ws| then ws[k] else ""
  }

  /** Words joined by single spaces. */
  function JoinWords(ws: seq<string>): string {
    if ws == [] then ""
    else if |ws| == 1 then ws[0]
    else ws[0] + " " + JoinWords(ws[1..])
  }

  /** A whitespace character in front of the words does not change them. */
  lemma WordsSkipOne(t: string)
    requires t != [] && IsSpace(t[0])
    ensures Words(t) == Words(t[1..])
  {
    var u := t[1..];
    SkipOneSpace(t);
    if LeadingSpace(u) < |u| {
      assert Words(t) == [FirstWord(t)] + Words(DropWord(t));
      assert Words(u) == [FirstWord(u)] + Words(DropWord(u));
    }
  }

  /** `>>` reads the same word, and leaves the same text, with or without one more blank in front. */
  lemma SkipOneSpace(t: string)
    requires t != [] && IsSpace(t[0])
    ensures LeadingSpace(t) == 1 + LeadingSpace(t[1..])
    ensures FirstWord(t) == FirstWord(t[1..])
    ensures DropWord(t) == DropWord(t[1..])
  {
    SkipOneSpaceWord(t);
    SkipOneSpaceDrop(t);
  }

  lemma SkipOneSpaceWord(t: string)
    requires t != [] && IsSpace(t[0])
    ensures FirstWord(t) == FirstWord(t[1..])
  {
    var u := t[1..];
    var j := LeadingSpace(u);
    assert LeadingSpace(t) == 1 + j;
    SliceOfTail(t, j, j);
    var k := WordLength(u[j..]);
    SliceOfTail(t, j, j + k);
    assert FirstWord(t) == t[1 + j..1 + j + k];
  }

  lemma SkipOneSpaceDrop(t: string)
    requires t != [] && IsSpace(t[0])
    ensures DropWord(t) == DropWord(t[1..])
  {
    var u := t[1..];
    var j := LeadingSpace(u);
    assert LeadingSpace(t) == 1 + j;
    SliceOfTail(t, j, j);
    var k := WordLength(u[j..]);
    SliceOfTail(t, j + k, j + k);
    assert DropWord(t) == t[1 + j + k..];
  }

  lemma SliceOfTail(t: string, a: nat, b: nat)
    requires 1 <= |t| && a <= b <= |t| - 1
    ensures t[1..][a..] == t[1 + a..]
    ensures t[1..][a..b] == t[1 + a..1 + b]
  {
  }

  /** Whitespace in front of the words does not change them. */
  lemma {:induction false} WordsSkipSpace(s: string, n: nat)
    requires n <= |s|
    requires forall i | 0 <= i < n :: IsSpace(s[i])
    ensures Words(s) == Words(s[n..])
    decreases n
  {
    if n > 0 {
      WordsSkipOne(s);
      WordsSkipSpace(s[1..], n - 1);
      assert s[1..][n - 1..] == s[n..];
    }
  }

  /** A word followed by the end of the text or by whitespace is read whole, leaving the rest. */
  lemma WordThenRest(w: string, rest: string)
    requires IsWord(w)
    requires rest == [] || IsSpace(rest[0])
    ensures LeadingSpace(w + rest) == 0
    ensures FirstWord(w + rest) == w
    ensures DropWord(w + rest) == rest
    ensures Words(w + rest) == [w] + Words(rest)
  {
    var s := w + rest;
    assert !IsSpace(s[0]);
    WordLengthOf(w, rest);
    assert s[0..] == s;
    assert s[..|w|] == w;
    assert s[|w|..] == rest;
  }

  lemma {:induction false} WordLengthOf(w: string, rest: string)
    requires forall i | 0 <= i < |w| :: !IsSpace(w[i])
    requires rest == [] || IsSpace(rest[0])
    ensures WordLength(w + rest) == |w|
    decreases |w|
  {
    if w != [] {
      assert (w + rest)[1..] == w[1..] + rest;
      WordLengthOf(w[1..], rest);
    } else {
      assert w + rest == rest;
    }
  }

  /** Round trip: reading the words of a space-joined list of words gives the list back. */
  lemma {:induction false} WordsOfJoin(ws: seq<string>)
    requires forall k | 0 <= k < |ws| :: IsWord(ws[k])
    ensures Words(JoinWords(ws)) == ws
    decreases |ws|
  {
    if ws == [] {
      assert LeadingSpace("") == 0;
    } else if |ws| == 1 {
      WordThenRest(ws[0], "");
      assert ws[0] + "" == ws[0];
      assert LeadingSpace("") == 0;
    } else {
      var tail := JoinWords(ws[1..]);
      WordsOfJoin(ws[1..]);
      assert ws[0] + " " + tail == ws[0] + (" " + tail);
      WordThenRest(ws[0], " " + tail);
      WordsSkipOne(" " + tail);
      assert (" " + tail)[1..] == tail;
    }
  }

  /** `find`: the index of the first `c` in `s`, or `|s|` (`npos`) when there is none. */
  function Find(s: string, c: char): (i: nat)
    ensures i <= |s|
    ensures i < |s| ==> s[i] == c
    ensures forall k | 0 <= k < i :: s[k] != c
  {
    if s == [] then 0
    else if s[0] == c then 0
    else 1 + Find(s[1..], c)
  }

  /**
   * The values that repeated `getline(stream, value, delim)` yields from `s`
   * until it fails: each read stops at the next `delim`, which is consumed and
   * dropped; the last read stops at the end of the text. A read that would
   * start at the end of the text fails, so a trailing delimiter adds no empty
   * value, and nothing is trimmed.
   */
  function GetlineSplit(s: string, delim: char): (fs: seq<string>)
    ensures (fs == []) == (s == [])
    decreases |s|
  {
    if s == [] then []
    else
      var i := Find(s, delim);
      if i == |s| then [s] else [s[..i]] + GetlineSplit(s[i + 1..], delim)
  }

  /** `w` does not contain `delim`. */
  predicate Avoids(w: string, delim: char) {
    forall j | 0 <= j < |w| :: w[j] != delim
  }

  /** No value `getline` yields holds the delimiter. */
  lemma {:induction false} FieldsAvoidDelim(s: string, delim: char)
    ensures forall k | 0 <= k < |GetlineSplit(s, delim)| :: Avoids(GetlineSplit(s, delim)[k], delim)
    decreases |s|
  {
    if s != [] {
      var i := Find(s, delim);
      if i < |s| {
        FieldsAvoidDelim(s[i + 1..], delim);
        SplitFirst(s, delim);
        AvoidsCons(s[..i], GetlineSplit(s[i + 1..], delim), delim);
      } else {
        SplitLast(s, delim);
        AvoidsCons(s, [], delim);
      }
    }
  }

  lemma AvoidsCons(w: string, ws: seq<string>, delim: char)
    requires forall j | 0 <= j < |w| :: w[j] != delim
    requires forall k | 0 <= k < |ws| :: Avoids(ws[k], delim)
    ensures forall k | 0 <= k < |[w] + ws| :: Avoids(([w] + ws)[k], delim)
  {
    assert Avoids(w, delim);
    forall k | 0 <= k < |[w] + ws|
      ensures Avoids(([w] + ws)[k], delim)
    {
      if k > 0 {
        assert ([w] + ws)[k] == ws[k - 1];
      }
    }
  }

  /** One `getline` read: the first field, then the fields of what follows its delimiter. */
  lemma SplitStep(s: string, delim: char)
    requires s != []
    ensures Find(s, delim) == |s| ==> GetlineSplit(s, delim) == [s]
    ensures Find(s, delim) < |s| ==>
      GetlineSplit(s, delim) == [s[..Find(s, delim)]] + GetlineSplit(s[Find(s, delim) + 1..], delim)
  {
    if Find(s, delim) == |s| {
      SplitLast(s, delim);
    } else {
      SplitFirst(s, delim);
    }
  }

  lemma SplitLast(s: string, delim: char)
    requires s != [] && Find(s, delim) == |s|
    ensures GetlineSplit(s, delim) == [s]
  {
  }

  lemma SplitFirst(s: string, delim: char)
    requires s != [] && Find(s, delim) < |s|
    ensures GetlineSplit(s, delim) == [s[..Find(s, delim)]] + GetlineSplit(s[Find(s, delim) + 1..], delim)
  {
  }

  /** Values joined by `delim`. */
  function Join(vs: seq<string>, delim: char): string {
    if vs == [] then ""
    else if |vs| == 1 then vs[0]
    else vs[0] + [delim] + Join(vs[1..], delim)
  }

  /**
   * Joining the fields gives the text back, short of one trailing delimiter:
   * the only text `GetlineSplit` loses is a delimiter at the very end.
   */
  lemma {:induction false} JoinOfSplit(s: string, delim: char)
    ensures Join(GetlineSplit(s, delim), delim) == DropTrailing(s, delim)
    decreases |s|
  {
    if s != [] {
      var i := Find(s, delim);
      SplitStep(s, delim);
      if i < |s| {
        JoinOfSplit(s[i + 1..], delim);
        JoinOfSplitAt(s, i, delim);
      }
    }
  }

  /** The inductive step of `JoinOfSplit`, at the first delimiter `i` of `s`. */
  lemma JoinOfSplitAt(s: string, i: nat, delim: char)
    requires i < |s| && s[i] == delim
    requires Join(GetlineSplit(s[i + 1..], delim), delim) == DropTrailing(s[i + 1..], delim)
    ensures Join([s[..i]] + GetlineSplit(s[i + 1..], delim), delim) == DropTrailing(s, delim)
  {
    var t := s[i + 1..];
    assert s == s[..i] + [delim] + t;
    JoinOfSplitStep(s[..i], t, delim);
  }

  /** `s` without its last character when that is `delim`. */
  function DropTrailing(s: string, delim: char): string {
    if s != [] && s[|s| - 1] == delim then s[..|s| - 1] else s
  }

  lemma JoinOfSplitStep(a: string, t: string, delim: char)
    requires Join(GetlineSplit(t, delim), delim) == DropTrailing(t, delim)
    ensures Join([a] + GetlineSplit(t, delim), delim) == DropTrailing(a + [delim] + t, delim)
  {
    var s := a + [delim] + t;
    JoinCons(a, GetlineSplit(t, delim), delim);
    if t != [] {
      LastOfAppend(a + [delim], t);
      if t[|t| - 1] == delim {
        assert s[..|s| - 1] == a + [delim] + t[..|t| - 1];
      }
    }
  }

  lemma JoinCons(a: string, vs: seq<string>, delim: char)
    ensures Join([a] + vs, delim) == if vs == [] then a else a + [delim] + Join(vs, delim)
  {
    assert ([a] + vs)[1..] == vs;
  }

  lemma LastOfAppend(a: string, b: string)
    requires b != []
    ensures (a + b)[|a + b| - 1] == b[|b| - 1]
  {
  }

  /**
   * Round trip the other way: values free of the delimiter, the last of them
   * non-empty, are split back into exactly themselves.
   */
  lemma {:induction false} SplitOfJoin(vs: seq<string>, delim: char)
    requires forall k | 0 <= k < |vs| :: delim !in vs[k]
    requires vs == [] || vs[|vs| - 1] != []
    ensures GetlineSplit(Join(vs, delim), delim) == vs
    decreases |vs|
  {
    if |vs| == 1 {
      FindAbsent(vs[0], delim);
    } else if |vs| > 1 {
      SplitOfJoin(vs[1..], delim);
      JoinNonEmpty(vs[1..], delim);
      SplitFirstField(vs[0], Join(vs[1..], delim), delim);
      assert vs == [vs[0]] + vs[1..];
    }
  }

  /** A delimiter-free field, the delimiter and a non-empty tail split into the field and the tail's fields. */
  lemma SplitFirstField(a: string, tail: string, delim: char)
    requires delim !in a && tail != []
    ensures GetlineSplit(a + [delim] + tail, delim) == [a] + GetlineSplit(tail, delim)
  {
    var s := a + [delim] + tail;
    FindAfter(a, delim, tail);
    SplitStep(s, delim);
    assert s[..|a|] == a;
    assert s[|a| + 1..] == tail;
  }

  lemma {:induction false} JoinNonEmpty(vs: seq<string>, delim: char)
    requires vs != [] && vs[|vs| - 1] != []
    ensures Join(vs, delim) != []
    decreases |vs|
  {
    if |vs| > 1 {
      JoinNonEmpty(vs[1..], delim);
    }
  }

  lemma FindAbsent(s: string, c: char)
    requires c !in s
    ensures Find(s, c) == |s|
  {
    forall k | 0 <= k < |s| ensures s[k] != c {
      assert s[k] in s;
    }
  }

  lemma FindAfter(s: string, c: char, t: string)
    requires c !in s
    ensures Find(s + [c] + t, c) == |s|
  {
    var u := s + [c] + t;
    forall k | 0 <= k < |s| ensures u[k] != c {
      assert u[k] == s[k];
      assert s[k] in s;
    }
    assert u[|s|] == c;
  }

  /**
   * `col.find(":")` and the two `substr` calls: the text before the first
   * colon and the text after it, or nothing when there is no colon.
   */
  function SplitAtColon(col: string): (r: Option<(string, string)>)
    ensures r.None? <==> ':' !in col
    ensures r.Some? ==> r.value.0 + ":" + r.value.1 == col && ':' !in r.value.0
  {
    var p := Find(col, ':');
    if p == |col| then
      FindAbsentConverse(col, ':');
      None
    else
      assert col == col[..p] + ":" + col[p + 1..];
      assert forall k | 0 <= k < p :: col[..p][k] != ':';
      Some((col[..p], col[p + 1..]))
  }

  lemma FindAbsentConverse(s: string, c: char)
    requires Find(s, c) == |s|
    ensures c !in s
  {
  }

  predicate IsDigit(c: char) {
    '0' <= c <= '9'
  }

  predicate AllDigits(s: string) {
    forall i | 0 <= i < |s| :: IsDigit(s[i])
  }

  /** Number of decimal digits at the start of `s`. */
  function DigitRun(s: string): (n: nat)
    ensures n <= |s|
    ensures AllDigits(s[..n])
    ensures n < |s| ==> !IsDigit(s[n])
  {
    if s == [] || !IsDigit(s[0]) then 0 else 1 + DigitRun(s[1..])
  }

  /** The value of a string of decimal digits, most significant first. */
  function DigitsValue(ds: string): nat
    requires AllDigits(ds)
  {
    if ds == [] then 0
    else 10 * DigitsValue(ds[..|ds| - 1]) + (ds[|ds| - 1] as int - '0' as int)
  }

  /** `to_string` of an unsigned count: its decimal digits, without leading zeros. */
  function NatToString(n: nat): (s: string)
  {
    if n < 10 then [('0' as int + n) as char]
    else NatToString(n / 10) + [('0' as int + n % 10) as char]
  }

  /** `NatToString` writes only digits, never with a leading zero, and reading them back gives `n`. */
  lemma {:induction false} NatToStringValue(n: nat)
    ensures AllDigits(NatToString(n))
    ensures |NatToString(n)| > 1 ==> NatToString(n)[0] != '0'
    ensures DigitsValue(NatToString(n)) == n
  {
    var s := NatToString(n);
    if n >= 10 {
      NatToStringValue(n / 10);
      assert s[..|s| - 1] == NatToString(n / 10);
    }
  }
}
