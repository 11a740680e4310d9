/** The few java.lang behaviours the facade relies on: blank checks, trimming, Long.intValue. */
module JavaLang {
  import opened Outcomes

  /** Character.isWhitespace: the Unicode space, line and paragraph separators other than the
      non-breaking ones (U+00A0, U+2007, U+202F), and the controls U+0009-U+000D, U+001C-U+001F. */
  predicate IsWhitespace(c: char) {
    || c == ' '
    || ('\t' <= c <= '\r')
    || ('\U{1C}' <= c <= '\U{1F}')
    || c == '\U{1680}'
    || ('\U{2000}' <= c <= '\U{2006}')
    || ('\U{2008}' <= c <= '\U{200A}')
    || c == '\U{2028}' || c == '\U{2029}' || c == '\U{205F}' || c == '\U{3000}'
  }

  /** String.isBlank: empty or made of whitespace only. */
  predicate IsBlank(s: string) {
    forall i :: 0 <= i < |s| ==> IsWhitespace(s[i])
  }

  /** A name parameter that is null or blank. */
  predicate NullOrBlank(name: Option<string>) {
    name.None? || IsBlank(name.value)
  }

  /** The characters String.trim removes: every code point up to U+0020. */
  predicate IsTrimmable(c: char) {
    c <= ' '
  }

  /** Drops the trimmable prefix. */
  function TrimStart(s: string): (r: string)
    ensures |r| <= |s| && r == s[|s| - |r|..]
    ensures forall i :: 0 <= i < |s| - |r| ==> IsTrimmable(s[i])
    ensures r == [] || !IsTrimmable(r[0])
  {
    if s != [] && IsTrimmable(s[0]) then TrimStart(s[1..]) else s
  }

  /** Drops the trimmable suffix. */
  function TrimEnd(s: string): (r: string)
    ensures |r| <= |s| && r == s[..|r|]
    ensures forall i :: |r| <= i < |s| ==> IsTrimmable(s[i])
    ensures r == [] || !IsTrimmable(r[|r| - 1])
  {
    if s != [] && IsTrimmable(s[|s| - 1]) then TrimEnd(s[..|s| - 1]) else s
  }

  /** String.trim: the longest slice of s that neither starts nor ends with a character up to U+0020. */
  function Trim(s: string): (r: string)
    ensures |r| <= |s|
    ensures r == [] || (!IsTrimmable(r[0]) && !IsTrimmable(r[|r| - 1]))
    ensures r == [] <==> forall i :: 0 <= i < |s| ==> IsTrimmable(s[i])
    ensures multiset(r) <= multiset(s)
  {
    var t := TrimStart(s);
    var r := TrimEnd(t);
    TrimmedSlice(s, t, r);
    r
  }

  /** A prefix of a suffix of s holds no character more often than s does. */
  lemma TrimmedSlice(s: string, t: string, r: string)
    requires |t| <= |s| && t == s[|s| - |t|..] && |r| <= |t| && r == t[..|r|]
    ensures multiset(r) <= multiset(s)
  {
    assert s == s[..|s| - |t|] + t;
    assert t == r + t[|r|..];
  }

  /** s[a..b] lies between a run of trimmable characters at the front and one at the back. */
  predicate BetweenTrimmableRuns(s: string, a: int, b: int) {
    && 0 <= a <= b <= |s|
    && (forall i :: 0 <= i < a ==> IsTrimmable(s[i]))
    && (forall i :: b <= i < |s| ==> IsTrimmable(s[i]))
  }

  /** The trimmed string is the slice of s between a run of trimmable characters at the front and
      one at the back; with its ends not trimmable, this fixes it. */
  lemma TrimIsSlice(s: string) returns (a: int, b: int)
    ensures BetweenTrimmableRuns(s, a, b) && Trim(s) == s[a..b]
  {
    var t := TrimStart(s);
    var r := TrimEnd(t);
    assert Trim(s) == r;
    SliceBetweenRuns(s, t, r);
    a, b := |s| - |t|, |s| - |t| + |r|;
  }

  /** A trimmable-run suffix of a trimmable-run prefix, on plain slices. */
  lemma SliceBetweenRuns(s: string, t: string, r: string)
    requires |t| <= |s| && t == s[|s| - |t|..] && (forall i :: 0 <= i < |s| - |t| ==> IsTrimmable(s[i]))
    requires |r| <= |t| && r == t[..|r|] && (forall i :: |r| <= i < |t| ==> IsTrimmable(t[i]))
    ensures var a := |s| - |t|; BetweenTrimmableRuns(s, a, a + |r|) && r == s[a..a + |r|]
  {
    var a := |s| - |t|;
    forall i | a + |r| <= i < |s| ensures IsTrimmable(s[i]) {
      assert s[i] == t[i - a];
    }
  }

  /** Conversely, a slice between trimmable runs whose own ends are not trimmable is the trimmed
      string. */
  lemma TrimIsOnlySlice(s: string, a: int, b: int)
    requires BetweenTrimmableRuns(s, a, b)
    requires a < b ==> !IsTrimmable(s[a]) && !IsTrimmable(s[b - 1])
    ensures Trim(s) == s[a..b]
  {
    if a == b {
      assert forall i :: 0 <= i < |s| ==> IsTrimmable(s[i]);
    } else {
      TrimOfFramedSlice(s, a, b);
    }
  }

  lemma TrimOfFramedSlice(s: string, a: int, b: int)
    requires BetweenTrimmableRuns(s, a, b) && a < b
    requires !IsTrimmable(s[a]) && !IsTrimmable(s[b - 1])
    ensures Trim(s) == s[a..b]
  {
    TrimStartAt(s, a);
    SuffixTrimEnd(s, a, b);
    assert Trim(s) == TrimEnd(TrimStart(s));
  }

  lemma SuffixTrimEnd(s: string, a: int, b: int)
    requires BetweenTrimmableRuns(s, a, b) && a < b && !IsTrimmable(s[b - 1])
    ensures TrimEnd(s[a..]) == s[a..b]
  {
    var t := s[a..];
    forall i | b - a <= i < |t| ensures IsTrimmable(t[i]) {
      assert t[i] == s[a + i];
    }
    TrimEndAt(t, b - a);
    assert t[..b - a] == s[a..b];
  }

  lemma {:induction false} TrimStartAt(s: string, a: int)
    requires 0 <= a < |s| && !IsTrimmable(s[a])
    requires forall i :: 0 <= i < a ==> IsTrimmable(s[i])
    ensures TrimStart(s) == s[a..]
  {
    if a > 0 {
      assert IsTrimmable(s[0]);
      TrimStartAt(s[1..], a - 1);
      assert s[1..][a - 1..] == s[a..];
    }
  }

  lemma {:induction false} TrimEndAt(t: string, b: int)
    requires 0 < b <= |t| && !IsTrimmable(t[b - 1])
    requires forall i :: b <= i < |t| ==> IsTrimmable(t[i])
    ensures TrimEnd(t) == t[..b]
  {
    if b < |t| {
      assert IsTrimmable(t[|t| - 1]);
      TrimEndAt(t[..|t| - 1], b);
      assert t[..|t| - 1][..b] == t[..b];
    } else {
      assert t[..b] == t;
    }
  }

  /** Trimming twice is trimming once. */
  lemma TrimIdempotent(s: string)
    ensures Trim(Trim(s)) == Trim(s)
  {
    var r := Trim(s);
    if r != [] {
      TrimKeepsTrimmed(r);
    }
  }

  /** A string that neither starts nor ends with a trimmable character is left as it is. */
  lemma TrimKeepsTrimmed(s: string)
    requires s != [] && !IsTrimmable(s[0]) && !IsTrimmable(s[|s| - 1])
    ensures Trim(s) == s
  {
  }

  /** String.isBlank and String.trim disagree: a control character such as U+0000 is not blank,
      so a name made of it passes the blank check, and trims to the empty string. */
  lemma NonBlankNameCanTrimToEmpty()
    ensures !NullOrBlank(Some("\0")) && Trim("\0") == ""
  {
    var s := "\0";
    assert s[0] == '\0' && !IsWhitespace(s[0]);
    assert IsTrimmable(s[0]);
  }

  /** A name with a character above U+0020 keeps a non-empty trimmed form. */
  lemma TrimmedNameNotEmpty(s: string, i: int)
    requires 0 <= i < |s| && !IsTrimmable(s[i])
    ensures Trim(s) != []
  {
  }

  const TwoTo32: int := 0x1_0000_0000
  const TwoTo31: int := 0x8000_0000

  /** Long.intValue: the low 32 bits, read as a two's complement int. */
  function IntValue(x: int): (r: int)
    ensures -TwoTo31 <= r < TwoTo31
    ensures (x - r) % TwoTo32 == 0
    ensures -TwoTo31 <= x < TwoTo31 ==> r == x
  {
    var m := x % TwoTo32;
    if m >= TwoTo31 then m - TwoTo32 else m
  }
}
