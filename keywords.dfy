/**
 The keyword field of a submission: a comma-separated string, split at every comma
 (as JavaScript's String.prototype.split with a one-character separator does) and with
 each piece trimmed of surrounding white space (as String.prototype.trim does).
 */
module Keywords {

  import opened Model

  /** The characters JavaScript's trim removes: the WhiteSpace and LineTerminator code points. */
  predicate IsWhitespace(c: char) {
    || c == '\t' || c == '\n' || c == '\U{0B}' || c == '\U{0C}' || c == '\r' || c == ' '
    || c == '\U{A0}' || c == '\U{1680}' || ('\U{2000}' <= c <= '\U{200A}')
    || c == '\U{2028}' || c == '\U{2029}' || c == '\U{202F}' || c == '\U{205F}'
    || c == '\U{3000}' || c == '\U{FEFF}'
  }

  /** True when the string neither starts nor ends with white space. */
  predicate IsTrimmed(s: string) {
    s == [] || (!IsWhitespace(s[0]) && !IsWhitespace(s[|s| - 1]))
  }

  function CommaCount(s: string): nat {
    if s == [] then 0 else (if s[0] == ',' then 1 else 0) + CommaCount(s[1..])
  }

  /** The pieces of `s` between commas, left to right. */
  function Split(s: string): (parts: seq<string>)
    ensures |parts| == CommaCount(s) + 1
    ensures forall i :: 0 <= i < |parts| ==> ',' !in parts[i]
  {
    if s == [] then [""]
    else
      var rest := Split(s[1..]);
      if s[0] == ',' then [""] + rest
      else [[s[0]] + rest[0]] + rest[1..]
  }

  /** The inverse of Split: the pieces glued back together with a comma between each two. */
  function Join(parts: seq<string>): string
    requires |parts| >= 1
  {
    if |parts| == 1 then parts[0] else parts[0] + "," + Join(parts[1..])
  }

  lemma {:induction false} JoinSplit(s: string)
    ensures Join(Split(s)) == s
  {
    if s != [] {
      var rest := Split(s[1..]);
      JoinSplit(s[1..]);
      var parts := Split(s);
      if s[0] == ',' {
        assert parts == [""] + rest && parts[1..] == rest;
        assert Join(parts) == "" + "," + s[1..];
      } else if |rest| == 1 {
        assert parts == [[s[0]] + rest[0]];
        assert Join(parts) == [s[0]] + s[1..];
      } else {
        assert parts == [[s[0]] + rest[0]] + rest[1..] && parts[1..] == rest[1..];
        assert Join(rest) == rest[0] + "," + Join(rest[1..]);
        assert Join(parts) == [s[0]] + (rest[0] + "," + Join(rest[1..]));
      }
      assert s == [s[0]] + s[1..];
    }
  }

  /** Splitting a comma-free prefix in front of `t` extends the first piece of `t`. */
  lemma {:induction false} SplitPrefix(a: string, t: string)
    requires ',' !in a
    ensures Split(a + t) == [a + Split(t)[0]] + Split(t)[1..]
  {
    if a != [] {
      SplitPrefix(a[1..], t);
      assert (a + t)[1..] == a[1..] + t;
      assert (a + t)[0] == a[0];
      assert [a[0]] + (a[1..] + Split(t)[0]) == a + Split(t)[0];
    } else {
      assert a + t == t;
      assert a + Split(t)[0] == Split(t)[0];
      assert Split(t) == [Split(t)[0]] + Split(t)[1..];
    }
  }

  lemma {:induction false} SplitJoin(parts: seq<string>)
    requires |parts| >= 1
    requires forall i :: 0 <= i < |parts| ==> ',' !in parts[i]
    ensures Split(Join(parts)) == parts
  {
    if |parts| == 1 {
      SplitPrefix(parts[0], "");
      assert parts[0] + "" == parts[0];
    } else {
      var tail := Join(parts[1..]);
      SplitJoin(parts[1..]);
      SplitPrefix(parts[0], "," + tail);
      assert ("," + tail)[1..] == tail;
      assert Split("," + tail) == [""] + Split(tail);
      assert parts[0] + "," + tail == parts[0] + ("," + tail);
      assert parts[0] + "" == parts[0];
      assert parts == [parts[0]] + parts[1..];
    }
  }

  /** The first index at or after `i` that does not hold white space (or |s|). */
  function SkipLeading(s: string, i: nat): (k: nat)
    requires i <= |s|
    ensures i <= k <= |s|
    ensures forall j :: i <= j < k ==> IsWhitespace(s[j])
    ensures k == |s| || !IsWhitespace(s[k])
    decreases |s| - i
  {
    if i == |s| || !IsWhitespace(s[i]) then i else SkipLeading(s, i + 1)
  }

  /** The smallest end at least `lo` such that `s[end..e]` is all white space. */
  function SkipTrailing(s: string, lo: nat, e: nat): (f: nat)
    requires lo <= e <= |s|
    ensures lo <= f <= e
    ensures forall j :: f <= j < e ==> IsWhitespace(s[j])
    ensures f == lo || !IsWhitespace(s[f - 1])
  {
    if e == lo || !IsWhitespace(s[e - 1]) then e else SkipTrailing(s, lo, e - 1)
  }

  /** `s` without its leading and trailing white space: an infix `s[k..e]` that neither
      starts nor ends with white space, with only white space before and after it. */
  function Trim(s: string): (r: string)
    ensures IsTrimmed(r)
    ensures exists k, e :: 0 <= k <= e <= |s| && r == s[k..e]
              && (forall j :: 0 <= j < k ==> IsWhitespace(s[j]))
              && (forall j :: e <= j < |s| ==> IsWhitespace(s[j]))
  {
    var k := SkipLeading(s, 0);
    var e := SkipTrailing(s, k, |s|);
    s[k..e]
  }

  /** Trim's contract pins the result down: any trimmed infix of `s` with only white space
      around it is what Trim returns. */
  lemma TrimUnique(s: string, k: nat, e: nat)
    requires k <= e <= |s| && IsTrimmed(s[k..e])
    requires forall j :: 0 <= j < k ==> IsWhitespace(s[j])
    requires forall j :: e <= j < |s| ==> IsWhitespace(s[j])
    ensures Trim(s) == s[k..e]
  {
    var k' := SkipLeading(s, 0);
    if k < e {
      assert s[k] == s[k..e][0] && s[e - 1] == s[k..e][e - k - 1];
      assert k' == k;
      var e' := SkipTrailing(s, k, |s|);
      assert e' == e;
    } else {
      assert k' == |s|;
    }
  }

  lemma TrimIdempotent(s: string)
    ensures Trim(Trim(s)) == Trim(s)
  {
    var t := Trim(s);
    assert t[0..|t|] == t;
    TrimUnique(t, 0, |t|);
  }

  /** The keyword list of a submission: nothing when the field is absent or empty (both
      are falsy in JavaScript), otherwise one trimmed keyword per comma-separated piece. */
  function KeywordList(field: Option<string>): (r: seq<string>)
    ensures field.None? || field == Some("") ==> r == []
    ensures field.Some? && field.value != "" ==>
              |r| == CommaCount(field.value) + 1
              && forall i :: 0 <= i < |r| ==> r[i] == Trim(Split(field.value)[i])
    ensures forall i :: 0 <= i < |r| ==> ',' !in r[i] && IsTrimmed(r[i])
  {
    if field.None? || field.value == "" then []
    else
      var parts := Split(field.value);
      seq(|parts|, i requires 0 <= i < |parts| => Trim(parts[i]))
  }
}
