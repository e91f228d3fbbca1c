/** The library functions on C strings that the kernel's text handling uses.  A string here is the part before the
    terminating NUL. */
module CStrings {
  import opened Options

  /** Index of the first occurrence of `key`. */
  function StrStr(s: string, key: string): (r: Option<nat>)
    ensures r.Some? ==> r.value + |key| <= |s|
    decreases |s|
  {
    if key <= s then Some(0)
    else if s == [] then None
    else match StrStr(s[1..], key)
      case None => None
      case Some(k) => Some(k + 1)
  }

  /** The occurrence found is one, and is the first. */
  lemma {:induction false} StrStrFirst(s: string, key: string)
    ensures var r := StrStr(s, key);
            if r.Some? then key <= s[r.value..] && forall j :: 0 <= j < r.value ==> !(key <= s[j..])
            else forall j :: 0 <= j <= |s| ==> !(key <= s[j..])
    decreases |s|
  {
    assert s[0..] == s;
    if !(key <= s) && s != [] {
      StrStrFirst(s[1..], key);
      assert forall j :: 1 <= j <= |s| ==> s[1..][j - 1..] == s[j..];
    }
  }

  /** A string contains `key` exactly if it is `key` between two other strings. */
  lemma {:induction false} StrStrFinds(before: string, key: string, after: string)
    ensures StrStr(before + key + after, key).Some?
  {
    var s, at := before + key + after, |before|;
    StrStrFirst(s, key);
    assert at + |key| <= |s| && s[at..][..|key|] == key;
    assert key <= s[at..];
  }

  /** Index of the first `c`. */
  function StrChr(s: string, c: char): (r: Option<nat>)
    ensures r.Some? ==> r.value < |s| && s[r.value] == c
    decreases |s|
  {
    if s == [] then None
    else if s[0] == c then Some(0)
    else match StrChr(s[1..], c)
      case None => None
      case Some(k) => Some(k + 1)
  }

  lemma {:induction false} StrChrFirst(s: string, c: char)
    ensures match StrChr(s, c)
            case None => forall j :: 0 <= j < |s| ==> s[j] != c
            case Some(k) => forall j :: 0 <= j < k ==> s[j] != c
    decreases |s|
  {
    if s != [] && s[0] != c {
      StrChrFirst(s[1..], c);
      assert forall j :: 1 <= j < |s| ==> s[j] == s[1..][j - 1];
    }
  }

  lemma {:induction false} StrChrAt(a: string, c: char, b: string)
    requires c !in a
    ensures StrChr(a + ([c] + b), c) == Some(|a|)
    decreases |a|
  {
    if a != [] {
      assert (a + ([c] + b))[1..] == a[1..] + ([c] + b);
      StrChrAt(a[1..], c, b);
    } else {
      assert a + ([c] + b) == [c] + b;
    }
  }

  lemma {:induction false} StrChrNone(s: string, c: char)
    requires c !in s
    ensures StrChr(s, c) == None
    decreases |s|
  {
    if s != [] {
      StrChrNone(s[1..], c);
    }
  }

  /** What snprintf or a bounded copy leaves in a buffer of `size` bytes. */
  function Clip(s: string, size: nat): (r: string)
  {
    if |s| < size then s else s[..if size > 0 then size - 1 else 0]
  }

  /** A copy into a buffer keeps as many bytes as fit before the terminator. */
  lemma ClipKeeps(s: string, size: nat)
    requires size > 0
    ensures Clip(s, size) == s[..if |s| <= size - 1 then |s| else size - 1]
  {
  }
}
