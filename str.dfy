/** The string helpers of Laravel's `Illuminate\Support\Str` that the core
    relies on: `afterLast`, `before`, `beforeLast`, `snake` and `studly`.
    Strings are sequences of characters; case mapping covers ASCII letters
    only, and whitespace is the ASCII set that PHP's `ucwords` and the `\s`
    class of its regular expressions recognise. */
module Str {
  import opened Options

  predicate IsUpper(c: char) { 'A' <= c <= 'Z' }

  predicate IsLower(c: char) { 'a' <= c <= 'z' }

  predicate IsSpace(c: char)
  {
    c == ' ' || c == '\t' || c == '\n' || c == '\r' || c == '\U{000B}' || c == '\U{000C}'
  }

  function ToLower(c: char): (r: char)
    ensures !IsUpper(r)
    ensures IsUpper(c) ==> IsLower(r)
    ensures !IsUpper(c) ==> r == c
  {
    if IsUpper(c) then (c as int + 32) as char else c
  }

  function ToUpper(c: char): (r: char)
    ensures !IsLower(r)
    ensures IsLower(c) ==> IsUpper(r)
    ensures !IsLower(c) ==> r == c
  {
    if IsLower(c) then (c as int - 32) as char else c
  }

  /** Every ASCII capital replaced by its small letter (`strtolower`). */
  function Lower(s: string): (r: string)
    ensures |r| == |s|
  {
    seq(|s|, i requires 0 <= i < |s| => ToLower(s[i]))
  }

  /** `t` occurs in `s` starting at index `i`. */
  predicate OccursAt(s: string, t: string, i: int)
  {
    0 <= i && i + |t| <= |s| && s[i..i + |t|] == t
  }

  /** The first occurrence of `t` in `s` at or after index `k`. */
  function IndexFrom(s: string, t: string, k: nat): (r: Option<nat>)
    ensures r.Some? ==> k <= r.value && OccursAt(s, t, r.value)
    ensures r.Some? ==> forall j :: k <= j < r.value ==> !OccursAt(s, t, j)
    ensures r.None? ==> forall j :: k <= j ==> !OccursAt(s, t, j)
    decreases |s| - k
  {
    if k + |t| > |s| then None
    else if s[k..k + |t|] == t then Some(k)
    else IndexFrom(s, t, k + 1)
  }

  /** The last occurrence of `t` in `s` starting at or before index `k`. */
  function LastIndexFrom(s: string, t: string, k: int): (r: Option<nat>)
    requires k + |t| <= |s|
    ensures r.Some? ==> r.value <= k && OccursAt(s, t, r.value)
    ensures r.Some? ==> forall j :: r.value < j <= k ==> !OccursAt(s, t, j)
    ensures r.None? ==> forall j :: j <= k ==> !OccursAt(s, t, j)
    decreases k + 1
  {
    if k < 0 then None
    else if s[k..k + |t|] == t then Some(k)
    else LastIndexFrom(s, t, k - 1)
  }

  function LastIndexOf(s: string, t: string): (r: Option<nat>)
    ensures r.Some? ==> OccursAt(s, t, r.value)
    ensures r.Some? ==> forall j :: r.value < j ==> !OccursAt(s, t, j)
    ensures r.None? ==> forall j :: !OccursAt(s, t, j)
  {
    if |t| > |s| then None else LastIndexFrom(s, t, |s| - |t|)
  }

  /** `Str::before`: the part of `s` before the first occurrence of `t`, or
      all of `s` when `t` is empty or absent. */
  function Before(s: string, t: string): (r: string)
    ensures r <= s
    ensures t != [] && (exists j :: OccursAt(s, t, j)) ==>
              OccursAt(s, t, |r|) && forall j :: 0 <= j < |r| ==> !OccursAt(s, t, j)
    ensures (t == [] || forall j :: !OccursAt(s, t, j)) ==> r == s
  {
    if t == [] then s
    else match IndexFrom(s, t, 0)
      case None => s
      case Some(i) => s[..i]
  }

  /** `Str::beforeLast`: the part of `s` before the last occurrence of `t`,
      or all of `s` when `t` is empty or absent. */
  function BeforeLast(s: string, t: string): (r: string)
    ensures r <= s
    ensures t != [] && (exists j :: OccursAt(s, t, j)) ==>
              OccursAt(s, t, |r|) && forall j :: |r| < j ==> !OccursAt(s, t, j)
    ensures (t == [] || forall j :: !OccursAt(s, t, j)) ==> r == s
  {
    if t == [] then s
    else match LastIndexOf(s, t)
      case None => s
      case Some(i) => s[..i]
  }

  /** `Str::afterLast` for a one-character separator: the longest suffix of
      `s` that does not contain `sep`. */
  function AfterLast(s: string, sep: char): (r: string)
    ensures sep !in r
    ensures |r| <= |s| && r == s[|s| - |r|..]
    ensures r == s || s[|s| - |r| - 1] == sep
  {
    if s == [] then []
    else if s[|s| - 1] == sep then []
    else AfterLast(s[..|s| - 1], sep) + [s[|s| - 1]]
  }

  // ---- Str::snake ----

  /** PHP's `ctype_lower`: non-empty and made of small ASCII letters only. */
  predicate CtypeLower(s: string)
  {
    |s| > 0 && forall i :: 0 <= i < |s| ==> IsLower(s[i])
  }

  /** PHP's `ucwords`: capitalise the first character and every character
      that follows a whitespace character. */
  function UcWords(s: string): (r: string)
    ensures |r| == |s|
  {
    UcWordsFrom(s, true)
  }

  function UcWordsFrom(s: string, wordStart: bool): (r: string)
    ensures |r| == |s|
    ensures forall i :: 0 <= i < |s| ==> (IsSpace(r[i]) <==> IsSpace(s[i]))
    ensures forall i :: 0 <= i < |s| ==> (r[i] == '\\' <==> s[i] == '\\')
  {
    if s == [] then []
    else [if wordStart then ToUpper(s[0]) else s[0]] + UcWordsFrom(s[1..], IsSpace(s[0]))
  }

  /** Removes every whitespace character (`preg_replace('/\s+/u', '', ...)`). */
  function StripSpace(s: string): (r: string)
    ensures forall c :: c in r ==> c in s && !IsSpace(c)
  {
    if s == [] then []
    else (if IsSpace(s[0]) then [] else [s[0]]) + StripSpace(s[1..])
  }

  /** `preg_replace('/(.)(?=[A-Z])/u', '$1_', ...)` on a string with no line
      breaks: an underscore before every capital that is not the first
      character. */
  function Underscore(s: string): (r: string)
    ensures forall c :: c in r ==> c in s || c == '_'
  {
    if s == [] then [] else [s[0]] + UnderscoreRest(s[1..])
  }

  function UnderscoreRest(s: string): (r: string)
    ensures forall c :: c in r ==> c in s || c == '_'
  {
    if s == [] then []
    else (if IsUpper(s[0]) then ['_', s[0]] else [s[0]]) + UnderscoreRest(s[1..])
  }

  /** `Str::snake` with the default `_` delimiter: a string that is all small
      letters is returned as is; any other string is word-capitalised, has its
      whitespace removed, gets `_` before every inner capital and is lowered. */
  function Snake(s: string): string
  {
    if CtypeLower(s) then s else Lower(Underscore(StripSpace(UcWords(s))))
  }

  /** `snake` leaves no capital and no whitespace, and introduces no
      backslash. */
  lemma SnakeChars(s: string)
    ensures forall i :: 0 <= i < |Snake(s)| ==> !IsUpper(Snake(s)[i]) && !IsSpace(Snake(s)[i])
    ensures '\\' !in s ==> '\\' !in Snake(s)
  {
    if !CtypeLower(s) {
      var u := UcWords(s);
      assert '\\' !in s ==> '\\' !in u by {
        if '\\' in u {
          var i :| 0 <= i < |u| && u[i] == '\\';
        }
      }
      var w := Underscore(StripSpace(u));
      assert forall i :: 0 <= i < |w| ==> !IsSpace(w[i]) && (w[i] == '\\' ==> '\\' in u) by {
        forall i | 0 <= i < |w|
          ensures !IsSpace(w[i]) && (w[i] == '\\' ==> '\\' in u)
        {
          assert w[i] in w;
        }
      }
      var r := Lower(w);
      assert forall i :: 0 <= i < |r| ==> (r[i] == '\\' ==> w[i] == '\\');
    }
  }

  /** A prefix keeps the characters of the string it is a prefix of. */
  lemma PrefixChars(r: string, s: string)
    requires r <= s
    ensures forall i :: 0 <= i < |r| ==> r[i] == s[i]
  {
  }

  // ---- facts for evaluating the helpers on given strings ----

  /** `afterLast` returns what follows the last separator. */
  lemma {:induction false} AfterLastOfSuffix(a: string, sep: char, b: string)
    requires sep !in b
    ensures AfterLast(a + [sep] + b, sep) == b
    decreases |b|
  {
    var s := a + [sep] + b;
    if b != [] {
      var b' := b[..|b| - 1];
      assert s[..|s| - 1] == a + [sep] + b';
      AfterLastOfSuffix(a, sep, b');
      assert b == b' + [b[|b| - 1]];
    }
  }

  /** Inside a word, `ucwords` changes nothing in a string without whitespace. */
  lemma {:induction false} UcWordsFromPlain(s: string)
    requires forall i :: 0 <= i < |s| ==> !IsSpace(s[i])
    ensures UcWordsFrom(s, false) == s
  {
    if s != [] {
      UcWordsFromPlain(s[1..]);
    }
  }

  /** A string without whitespace loses nothing to `StripSpace`. */
  lemma {:induction false} StripSpacePlain(s: string)
    requires forall i :: 0 <= i < |s| ==> !IsSpace(s[i])
    ensures StripSpace(s) == s
  {
    if s != [] {
      StripSpacePlain(s[1..]);
    }
  }

  /** `UnderscoreRest` works character by character. */
  lemma {:induction false} UnderscoreRestAppend(a: string, b: string)
    ensures UnderscoreRest(a + b) == UnderscoreRest(a) + UnderscoreRest(b)
  {
    if a != [] {
      assert (a + b)[1..] == a[1..] + b;
      UnderscoreRestAppend(a[1..], b);
    } else {
      assert a + b == b;
    }
  }

  /** A string without capitals gets no underscore. */
  lemma {:induction false} UnderscoreRestPlain(s: string)
    requires forall i :: 0 <= i < |s| ==> !IsUpper(s[i])
    ensures UnderscoreRest(s) == s
  {
    if s != [] {
      UnderscoreRestPlain(s[1..]);
    }
  }

  /** `strtolower` works character by character. */
  lemma LowerAppend(a: string, b: string)
    ensures Lower(a + b) == Lower(a) + Lower(b)
  {
    var l, r := Lower(a + b), Lower(a) + Lower(b);
    forall i | 0 <= i < |l| ensures l[i] == r[i] {
      if i < |a| {
        assert (a + b)[i] == a[i];
      } else {
        assert (a + b)[i] == b[i - |a|];
      }
    }
  }

  /** A string without capitals is its own `strtolower`. */
  lemma LowerPlain(s: string)
    requires forall i :: 0 <= i < |s| ==> !IsUpper(s[i])
    ensures Lower(s) == s
  {
  }

  /** On a run of ASCII letters that starts with a capital, `snake` only
      inserts the underscores and lowers. */
  lemma SnakeOfLetters(s: string)
    requires |s| > 0 && IsUpper(s[0])
    requires forall i :: 0 <= i < |s| ==> IsUpper(s[i]) || IsLower(s[i])
    ensures Snake(s) == Lower(Underscore(s))
  {
    assert !IsLower(s[0]);
    UcWordsFromPlain(s[1..]);
    assert UcWords(s) == [s[0]] + s[1..];
    assert [s[0]] + s[1..] == s;
    StripSpacePlain(s);
  }

  // ---- Str::studly ----

  /** `Str::studly`: `-` and `_` count as spaces, the string is split at
      whitespace, each word gets a capital first letter and the words are
      joined without separator. */
  function Studly(s: string): (r: string)
    ensures forall i :: 0 <= i < |r| ==> !IsSeparator(r[i])
    ensures |r| > 0 ==> ToUpper(r[0]) == r[0]
  {
    StudlyFrom(s, true)
  }

  /** The characters `Str::studly` treats as word separators. */
  predicate IsSeparator(c: char) { c == '-' || c == '_' || IsSpace(c) }

  function StudlyFrom(s: string, wordStart: bool): (r: string)
    ensures forall i :: 0 <= i < |r| ==> !IsSeparator(r[i])
    ensures wordStart && |r| > 0 ==> ToUpper(r[0]) == r[0]
  {
    if s == [] then []
    else if IsSeparator(s[0]) then StudlyFrom(s[1..], true)
    else [if wordStart then ToUpper(s[0]) else s[0]] + StudlyFrom(s[1..], false)
  }

  /** Inside a word `Str::studly` leaves a separator-free string alone. */
  lemma {:induction false} StudlyFromPlain(s: string)
    requires forall i :: 0 <= i < |s| ==> !IsSeparator(s[i])
    ensures StudlyFrom(s, false) == s
  {
    if s != [] {
      StudlyFromPlain(s[1..]);
    }
  }

  /** `Str::studly` is idempotent. */
  lemma StudlyIdempotent(s: string)
    ensures Studly(Studly(s)) == Studly(s)
  {
    var r := Studly(s);
    if r != [] {
      StudlyFromPlain(r[1..]);
      assert r == [r[0]] + r[1..];
    }
  }
}
