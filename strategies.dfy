/** `CouponStrategy`: how a strategy class is named in the database, and its
    payload schema. A strategy is described by its fully qualified class
    name, its label, the schema fields its class declares and whether its
    class uses `CanNotifyAndRedirect`; `apply` is supplied separately, where a strategy is dispatched. */
module Strategies {
  import opened Str

  /** A form component of a strategy's payload form, identified by the
      payload key it edits. */
  datatype FormField = FormField(key: string)

  type Schema = seq<FormField>

  /** A configured strategy. `usesNotifyTrait` says whether its class uses
      `CanNotifyAndRedirect`, the only place `passToAction` is defined: the
      base class does not use it. */
  datatype Strategy = Strategy(className: string, displayLabel: string, declaredSchema: Schema,
                               usesNotifyTrait: bool)
  {
    /** `getName`: final, so fixed by the class name alone. */
    function Name(): string
    {
      GetName(className)
    }
  }

  /** The suffix `getName` removes. */
  const StrategySuffix: string := "_strategy"

  /** The class name without its namespace (`afterLast('\\')`), in snake
      case. */
  function ShortSnake(className: string): string
  {
    Snake(AfterLast(className, '\\'))
  }

  /** `getName`: the snake-cased short class name cut before the first
      `_strategy`. */
  function GetName(className: string): string
  {
    Before(ShortSnake(className), StrategySuffix)
  }

  /** The name `getName` derives has no namespace separator, no capital and
      no whitespace. */
  lemma GetNameChars(className: string)
    ensures '\\' !in GetName(className)
    ensures forall i :: 0 <= i < |GetName(className)| ==> !IsUpper(GetName(className)[i]) && !IsSpace(GetName(className)[i])
  {
    var short := ShortSnake(className);
    SnakeChars(AfterLast(className, '\\'));
    PrefixChars(GetName(className), short);
  }

  /** `getName` keeps a prefix of the snake-cased short name: when
      `_strategy` occurs in it, the name is everything before its first
      occurrence; otherwise it is the whole snake-cased short name. */
  lemma GetNameCut(className: string)
    ensures var short := ShortSnake(className);
      var r := GetName(className);
      && r <= short
      && ((exists j :: OccursAt(short, StrategySuffix, j)) ==>
            OccursAt(short, StrategySuffix, |r|) && forall j :: 0 <= j < |r| ==> !OccursAt(short, StrategySuffix, j))
      && ((forall j :: !OccursAt(short, StrategySuffix, j)) ==> r == short)
  {
  }

  /** The schema `CouponStrategy::schema` returns: it is declared `final`, so
      every strategy class answers with this one. */
  const BaseSchema: Schema := []

  /** A capitalised word: a capital followed by small letters. */
  predicate IsCapitalised(w: string)
  {
    |w| > 0 && IsUpper(w[0]) && forall i :: 1 <= i < |w| ==> IsLower(w[i])
  }

  /** Small letters only. */
  predicate IsSmall(w: string)
  {
    forall i :: 0 <= i < |w| ==> IsLower(w[i])
  }

  /** `snake` on two capitalised words joins them, in small letters, with an
      underscore. */
  lemma TwoWordSnake(a: string, b: string)
    requires IsCapitalised(a) && IsCapitalised(b)
    ensures Snake(a + b) == Lower(a) + ['_'] + Lower(b)
  {
    CapitalisedLetters(a, b);
    SnakeOfLetters(a + b);
    TwoWordUnderscore(a, b);
    LowerUnderscored(a, b);
  }

  /** Two capitalised words make a run of letters that starts with a
      capital. */
  lemma CapitalisedLetters(a: string, b: string)
    requires IsCapitalised(a) && IsCapitalised(b)
    ensures |a + b| > 0 && IsUpper((a + b)[0])
    ensures forall i :: 0 <= i < |a + b| ==> IsUpper((a + b)[i]) || IsLower((a + b)[i])
  {
    var s := a + b;
    assert s[0] == a[0];
    forall i | 0 <= i < |s| ensures IsUpper(s[i]) || IsLower(s[i]) {
      if i < |a| {
        assert s[i] == a[i];
      } else {
        assert s[i] == b[i - |a|];
      }
    }
  }

  /** Lowering two words joined by `_` lowers each. */
  lemma LowerUnderscored(a: string, b: string)
    ensures Lower(a + ['_'] + b) == Lower(a) + ['_'] + Lower(b)
  {
    LowerAppend(a + ['_'], b);
    LowerAppend(a, ['_']);
    assert Lower(['_']) == ['_'];
  }

  /** `snake`'s underscores for two capitalised words: one, between them. */
  lemma TwoWordUnderscore(a: string, b: string)
    requires IsCapitalised(a) && IsCapitalised(b)
    ensures Underscore(a + b) == a + ['_'] + b
  {
    var a1 := a[1..];
    assert (a + b)[0] == a[0];
    assert (a + b)[1..] == a1 + b;
    UnderscoreRestAppend(a1, b);
    UnderscoreRestPlain(a1);
    CapitalisedUnderscore(b);
    assert Underscore(a + b) == [a[0]] + (a1 + (['_'] + b));
    assert a == [a[0]] + a1;
  }

  /** A capitalised word after another character gets one underscore, in
      front. */
  lemma CapitalisedUnderscore(b: string)
    requires IsCapitalised(b)
    ensures UnderscoreRest(b) == ['_'] + b
  {
    var b1 := b[1..];
    assert IsUpper(b[0]);
    assert UnderscoreRest(b) == ['_', b[0]] + UnderscoreRest(b1);
    UnderscoreRestPlain(b1);
    assert b == [b[0]] + b1;
  }

  /** `before(t)` on a word followed by `t`, when `t` starts with `_` and the
      word has no `_`. */
  lemma CutBefore(w: string, t: string)
    requires IsSmall(w)
    requires |t| > 0 && t[0] == '_'
    ensures Before(w + t, t) == w
  {
    var s := w + t;
    var k := |w|;
    assert s[k..k + |t|] == t;
    assert OccursAt(s, t, k);
    forall j | 0 <= j < k
      ensures !OccursAt(s, t, j)
    {
      assert s[j] == w[j];
      assert s[j..j + |t|][0] == s[j];
    }
    var r := Before(s, t);
    assert |r| == k;
    assert s[..k] == w;
  }

  /** The short name of a namespaced class is its last segment. */
  lemma ShortNameOf(ns: string, cls: string)
    requires forall i :: 0 <= i < |cls| ==> IsUpper(cls[i]) || IsLower(cls[i])
    ensures AfterLast(ns + ['\\'] + cls, '\\') == cls
  {
    forall i | 0 <= i < |cls| ensures cls[i] != '\\' {
    }
    AfterLastOfSuffix(ns, '\\', cls);
  }

  /** The snake-cased short name of a class `XY` for capitalised words `X`
      and `Y`: `x_y`. */
  lemma TwoWordShortSnake(ns: string, word: string, suffix: string)
    requires IsCapitalised(word) && IsCapitalised(suffix)
    ensures ShortSnake(ns + ['\\'] + (word + suffix)) == Lower(word) + ['_'] + Lower(suffix)
  {
    var cls := word + suffix;
    forall i | 0 <= i < |cls| ensures IsUpper(cls[i]) || IsLower(cls[i]) {
      if i < |word| {
        assert cls[i] == word[i];
      } else {
        assert cls[i] == suffix[i - |word|];
      }
    }
    ShortNameOf(ns, cls);
    TwoWordSnake(word, suffix);
  }

  lemma CapitalisedSuffix(suffix: string)
    requires suffix == "Strategy"
    ensures IsCapitalised(suffix)
  {
  }

  /** `Strategy` in snake case, after its underscore, is the suffix
      `getName` removes. */
  lemma LowerSuffix(suffix: string)
    requires suffix == "Strategy"
    ensures ['_'] + Lower(suffix) == StrategySuffix
  {
  }

  /** A strategy class whose short name is a capitalised word followed by
      `Strategy` is named by that word in small letters, whatever its
      namespace; `SingleWordNameGlobal` covers a class in no namespace. */
  lemma SingleWordName(ns: string, word: string, suffix: string)
    requires IsCapitalised(word)
    requires suffix == "Strategy"
    ensures GetName(ns + ['\\'] + (word + suffix)) == Lower(word)
  {
    CapitalisedSuffix(suffix);
    LowerSuffix(suffix);
    TwoWordShortSnake(ns, word, suffix);
    LowerCapitalised(word);
    CutSnake(Lower(word), Lower(suffix));
  }

  /** A capitalised word lowers to small letters. */
  lemma LowerCapitalised(word: string)
    requires IsCapitalised(word)
    ensures IsSmall(Lower(word))
  {
  }

  /** Cutting `x_strategy`, spelt as a word, `_` and the lowered suffix,
      before `_strategy` leaves the word. */
  lemma CutSnake(w: string, l: string)
    requires IsSmall(w) && ['_'] + l == StrategySuffix
    ensures Before(w + ['_'] + l, StrategySuffix) == w
  {
    assert w + ['_'] + l == w + (['_'] + l);
    CutBefore(w, StrategySuffix);
  }

  /** A class in the global namespace has no `\\` in its name, so its short
      name is the whole name. */
  lemma ShortNameGlobal(cls: string)
    requires forall i :: 0 <= i < |cls| ==> IsUpper(cls[i]) || IsLower(cls[i])
    ensures AfterLast(cls, '\\') == cls
  {
    assert '\\' !in cls by {
      forall i | 0 <= i < |cls| ensures cls[i] != '\\' {
      }
    }
  }

  /** The same for a class `XStrategy` in the global namespace: it is named
      by `X` in small letters. */
  lemma SingleWordNameGlobal(word: string, suffix: string)
    requires IsCapitalised(word)
    requires suffix == "Strategy"
    ensures GetName(word + suffix) == Lower(word)
  {
    CapitalisedSuffix(suffix);
    LowerSuffix(suffix);
    CapitalisedLetters(word, suffix);
    ShortNameGlobal(word + suffix);
    TwoWordSnake(word, suffix);
    LowerCapitalised(word);
    CutSnake(Lower(word), Lower(suffix));
  }

  /** An example of `getName` on a single-word class: a class whose short
      name is `CouponStrategy` is named `coupon`, in any namespace. */
  lemma BaseClassName(ns: string)
    ensures GetName(ns + "\\CouponStrategy") == "coupon"
  {
    var word, suffix := "Coupon", "Strategy";
    CouponWord(word);
    SingleWordName(ns, word, suffix);
    BaseClassSpelling(ns, word, suffix);
  }

  lemma CouponWord(word: string)
    requires word == "Coupon"
    ensures IsCapitalised(word) && Lower(word) == "coupon"
  {
  }

  lemma BaseClassSpelling(ns: string, word: string, suffix: string)
    requires word == "Coupon" && suffix == "Strategy"
    ensures ns + ['\\'] + (word + suffix) == ns + "\\CouponStrategy"
  {
    assert ['\\'] + (word + suffix) == "\\CouponStrategy";
  }
}
