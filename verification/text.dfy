/** String primitives shared by the lead-capture logic: the whitespace class that
    JavaScript's `String.prototype.trim` strips and that the regular-expression
    class `\s` matches, trimming, whitespace deletion and a first-index search. */
module Text {

  /** ECMAScript WhiteSpace and LineTerminator code points (TAB, VT, FF, SP,
      NBSP, ZWNBSP, the Zs category, LF, CR, LS and PS). Both `trim` and `\s`
      are defined over exactly this set, so one predicate serves both. */
  predicate IsWs(c: char) {
    || c == '\t' || c == '\n' || c == '\U{000B}' || c == '\U{000C}' || c == '\r'
    || c == ' ' || c == '\U{00A0}' || c == '\U{1680}'
    || ('\U{2000}' <= c <= '\U{200A}')
    || c == '\U{2028}' || c == '\U{2029}' || c == '\U{202F}' || c == '\U{205F}'
    || c == '\U{3000}' || c == '\U{FEFF}'
  }

  /** The regular-expression class `\d`. */
  predicate IsDigit(c: char) {
    '0' <= c <= '9'
  }

  predicate AllWs(s: string) {
    forall k :: 0 <= k < |s| ==> IsWs(s[k])
  }

  predicate NoWs(s: string) {
    forall k :: 0 <= k < |s| ==> !IsWs(s[k])
  }

  predicate StartsWith(s: string, prefix: string) {
    |prefix| <= |s| && s[..|prefix|] == prefix
  }

  /** Number of whitespace characters at the front of `s`. */
  function LeadingWs(s: string): (n: nat)
    ensures n <= |s|
    ensures forall k :: 0 <= k < n ==> IsWs(s[k])
    ensures n < |s| ==> !IsWs(s[n])
  {
    if |s| > 0 && IsWs(s[0]) then 1 + LeadingWs(s[1..]) else 0
  }

  /** Number of whitespace characters at the back of `s`. */
  function TrailingWs(s: string): (n: nat)
    ensures n <= |s|
    ensures forall k :: |s| - n <= k < |s| ==> IsWs(s[k])
    ensures n < |s| ==> !IsWs(s[|s| - 1 - n])
  {
    if |s| > 0 && IsWs(s[|s| - 1]) then 1 + TrailingWs(s[..|s| - 1]) else 0
  }

  /** `String.prototype.trim`: the value with leading and trailing whitespace
      removed. It is empty exactly when the value is all whitespace, which is
      when JavaScript treats the trimmed value as falsy. */
  function Trim(s: string): (r: string)
    ensures |r| <= |s|
    ensures r == "" <==> AllWs(s)
    ensures r == "" || (!IsWs(r[0]) && !IsWs(r[|r| - 1]))
  {
    var i := LeadingWs(s);
    if i == |s| then "" else s[i .. |s| - TrailingWs(s)]
  }

  /** `Trim(s)` is a slice of `s` cut only through whitespace. */
  lemma TrimIsWsBoundedSlice(s: string)
    ensures exists i, j :: 0 <= i <= j <= |s| && Trim(s) == s[i..j] && AllWs(s[..i]) && AllWs(s[j..])
  {
    var i := LeadingWs(s);
    if i == |s| {
      assert Trim(s) == s[i..i] && AllWs(s[..i]) && AllWs(s[i..]);
    } else {
      var j := |s| - TrailingWs(s);
      assert AllWs(s[..i]);
      assert AllWs(s[j..]);
    }
  }

  /** Uniqueness: any slice of `s` cut only through whitespace whose own ends are
      not whitespace (or which is empty) is `Trim(s)`. Together with the
      contract of `Trim` this pins `Trim` down completely. */
  lemma TrimUnique(s: string, i: nat, j: nat)
    requires i <= j <= |s|
    requires AllWs(s[..i]) && AllWs(s[j..])
    requires i == j || (!IsWs(s[i]) && !IsWs(s[j - 1]))
    requires i == j ==> AllWs(s)
    ensures Trim(s) == s[i..j]
  {
    if i < j {
      assert LeadingWs(s) == i;
      assert |s| - TrailingWs(s) == j;
    }
  }

  /** Trimming twice is trimming once. */
  lemma TrimIdempotent(s: string)
    ensures Trim(Trim(s)) == Trim(s)
  {
    var r := Trim(s);
    if r != "" {
      TrimUnique(r, 0, |r|);
      assert r[0..|r|] == r;
    }
  }

  /** `value.replace(/\s/g, "")`: every whitespace character deleted. */
  function RemoveWs(s: string): (r: string)
    ensures NoWs(r)
    ensures |r| <= |s|
  {
    if s == "" then ""
    else (if IsWs(s[0]) then "" else [s[0]]) + RemoveWs(s[1..])
  }

  /** A value without whitespace is left as it is. */
  lemma {:induction false} RemoveWsOfNoWs(s: string)
    requires NoWs(s)
    ensures RemoveWs(s) == s
  {
    if s != "" {
      RemoveWsOfNoWs(s[1..]);
    }
  }

  /** Deletion keeps every non-whitespace character, as often as it occurs. */
  lemma {:induction false} RemoveWsKeepsOthers(s: string)
    ensures forall c :: !IsWs(c) ==> multiset(RemoveWs(s))[c] == multiset(s)[c]
  {
    if s != "" {
      RemoveWsKeepsOthers(s[1..]);
      assert s == [s[0]] + s[1..];
    }
  }

  /** Deletion distributes over concatenation, so it keeps the order of the
      characters it keeps. */
  lemma {:induction false} RemoveWsAppend(a: string, b: string)
    ensures RemoveWs(a + b) == RemoveWs(a) + RemoveWs(b)
  {
    if a == "" {
      assert a + b == b;
    } else {
      var head := if IsWs(a[0]) then "" else [a[0]];
      assert (a + b)[0] == a[0];
      assert (a + b)[1..] == a[1..] + b;
      assert RemoveWs(a + b) == head + RemoveWs(a[1..] + b);
      RemoveWsAppend(a[1..], b);
      assert RemoveWs(a) == head + RemoveWs(a[1..]);
    }
  }

  lemma {:induction false} RemoveWsOfAllWs(s: string)
    requires AllWs(s)
    ensures RemoveWs(s) == ""
  {
    if s != "" {
      RemoveWsOfAllWs(s[1..]);
    }
  }

  /** Cutting whitespace off both ends changes nothing for deletion. */
  lemma RemoveWsOfWsBounded(s: string, i: nat, j: nat)
    requires i <= j <= |s| && AllWs(s[..i]) && AllWs(s[j..])
    ensures RemoveWs(s[i..j]) == RemoveWs(s)
  {
    var left, mid, right := s[..i], s[i..j], s[j..];
    assert s == left + (mid + right);
    RemoveWsAppend(left, mid + right);
    RemoveWsAppend(mid, right);
    RemoveWsOfAllWs(left);
    RemoveWsOfAllWs(right);
  }

  /** Deleting whitespace after trimming is the same as deleting it from the
      raw value: the trim before the phone check changes nothing for it. */
  lemma RemoveWsOfTrim(s: string)
    ensures RemoveWs(Trim(s)) == RemoveWs(s)
  {
    TrimIsWsBoundedSlice(s);
    var i, j :| 0 <= i <= j <= |s| && Trim(s) == s[i..j] && AllWs(s[..i]) && AllWs(s[j..]);
    RemoveWsOfWsBounded(s, i, j);
  }

  /** Index of the first occurrence of `c` in `s`, or `|s|` when there is none. */
  function IndexOf(s: string, c: char): (i: nat)
    ensures i <= |s|
    ensures i < |s| ==> s[i] == c
    ensures forall k :: 0 <= k < i ==> s[k] != c
    ensures i == |s| <==> c !in s
  {
    if s == "" then 0
    else if s[0] == c then 0
    else 1 + IndexOf(s[1..], c)
  }

  /** The first occurrence is where the character is and nowhere before. */
  lemma IndexOfFirst(s: string, c: char, a: nat)
    requires a < |s| && s[a] == c && forall m :: 0 <= m < a ==> s[m] != c
    ensures IndexOf(s, c) == a
  {
  }

  predicate EndsWith(s: string, suffix: string) {
    |suffix| <= |s| && s[|s| - |suffix|..] == suffix
  }

  lemma AppendAssoc(a: string, b: string, c: string)
    ensures (a + b) + c == a + (b + c)
  {
  }

  lemma StartsWithAssoc(a: string, b: string, x: string)
    ensures StartsWith(a + (b + x), a + b)
  {
    assert a + (b + x) == (a + b) + x;
  }

  lemma EndsWithConcat(a: string, b: string, c: string)
    requires EndsWith(b, c)
    ensures EndsWith(a + b, c)
  {
    assert (a + b)[|a + b| - |c|..] == b[|b| - |c|..];
  }

  lemma PrefixOfConcat(a: string, b: string)
    ensures StartsWith(a + b, a)
    ensures (a + b)[|a|..] == b
  {
    assert (a + b)[..|a|] == a;
  }
}
