/** `make:coupons-strategy` (`CreateStrategyCommand::handle`): the class
    name the command derives from the name it is given, and the file it
    writes the class to. The prompt's answer is a parameter; writing the
    file and publishing the configuration are left out. */
module StrategyCommand {
  import opened Options
  import opened Str

  /** The word every strategy class name ends with. */
  const ClassSuffix: string := "Strategy"

  /** The folder under the application directory that receives the class. */
  const TargetFolder: string := "Coupons"

  /** The name the command works on: the `name` argument, or the answer to
      the prompt when the argument is missing. An empty argument is not
      missing. */
  function InputName(argument: Option<string>, prompted: string): (r: string)
    ensures argument.Some? ==> r == argument.value
    ensures argument.None? ==> r == prompted
  {
    argument.GetOr(prompted)
  }

  /** `str($name)->studly()->beforeLast('Strategy')`, then `.= 'Strategy'`. */
  function ClassName(name: string): (r: string)
    ensures |r| >= |ClassSuffix| && r[|r| - |ClassSuffix|..] == ClassSuffix
  {
    BeforeLast(Studly(name), ClassSuffix) + ClassSuffix
  }

  /** `app_path("Coupons/{$strategy}.php")`: the application directory, a
      separator, then the relative path. */
  function TargetPath(appPath: string, name: string): string
  {
    appPath + "/" + TargetFolder + "/" + ClassName(name) + ".php"
  }

  /** The class name has no whitespace, `-` or `_`, and starts with a
      capital unless it starts with a character that has none. */
  lemma ClassNameChars(name: string)
    ensures forall i :: 0 <= i < |ClassName(name)| ==> !IsSeparator(ClassName(name)[i])
    ensures ToUpper(ClassName(name)[0]) == ClassName(name)[0]
  {
    var studly := Studly(name);
    var base := BeforeLast(studly, ClassSuffix);
    var r := ClassName(name);
    PrefixNoSeparator(base, studly);
    forall i | 0 <= i < |r| ensures !IsSeparator(r[i]) {
      if i < |base| {
        assert r[i] == base[i];
      } else {
        assert r[i] == ClassSuffix[i - |base|];
      }
    }
    if base != [] {
      assert r[0] == base[0] == studly[0];
    } else {
      assert r == ClassSuffix;
    }
  }

  lemma PrefixNoSeparator(p: string, s: string)
    requires p <= s
    requires forall i :: 0 <= i < |s| ==> !IsSeparator(s[i])
    ensures forall i :: 0 <= i < |p| ==> !IsSeparator(p[i])
  {
    forall i | 0 <= i < |p| ensures !IsSeparator(p[i]) {
      assert p[i] == s[i];
    }
  }

  /** A name that is already a strategy class name is kept as it is: the
      command is idempotent on its own output. */
  lemma {:induction false} ClassNameIdempotent(name: string)
    ensures ClassName(ClassName(name)) == ClassName(name)
  {
    var m := ClassName(name);
    var base := BeforeLast(Studly(name), ClassSuffix);
    ClassNameChars(name);
    StudlyFixed(m);
    BeforeLastAtEnd(base, ClassSuffix);
  }

  /** Cutting before the last `t` of a string that ends with `t` removes just
      that ending. */
  lemma BeforeLastAtEnd(p: string, t: string)
    requires t != []
    ensures BeforeLast(p + t, t) == p
  {
    var m := p + t;
    assert m[|p|..] == t;
    assert OccursAt(m, t, |p|);
    assert m[..|p|] == p;
  }

  /** A word without separators whose first character is its own capital is
      left alone by `Str::studly`. */
  lemma StudlyFixed(w: string)
    requires forall i :: 0 <= i < |w| ==> !IsSeparator(w[i])
    requires |w| > 0 ==> ToUpper(w[0]) == w[0]
    ensures Studly(w) == w
  {
    if w != [] {
      StudlyFromPlain(w[1..]);
      assert w == [w[0]] + w[1..];
    }
  }

  /** `Test` and `TestStrategy` both give `TestStrategy`. */
  lemma TestExamples(short: string, full: string)
    requires short == "Test" && full == "TestStrategy"
    ensures ClassName(short) == full && ClassName(full) == full
  {
    StudlyFixed(short);
    assert forall j :: !OccursAt(short, ClassSuffix, j);
    assert ClassName(short) == short + ClassSuffix;
    assert short + ClassSuffix == full;
    ClassNameIdempotent(short);
  }

  /** An empty name gives the bare suffix. */
  lemma EmptyName()
    ensures ClassName([]) == ClassSuffix
  {
  }

  /** A name without `/` lands in the file named after its class, directly
      in the strategies folder of the application directory. */
  lemma TargetFile(appPath: string, name: string)
    requires '/' !in name
    ensures var path := TargetPath(appPath, name);
      && path[..|appPath| + |TargetFolder| + 2] == appPath + "/" + TargetFolder + "/"
      && AfterLast(path, '/') == ClassName(name) + ".php"
  {
    var file := ClassName(name) + ".php";
    FileNameSlashFree(name);
    var dir := appPath + "/" + TargetFolder;
    assert TargetPath(appPath, name) == dir + ['/'] + file;
    AfterLastOfSuffix(dir, '/', file);
  }

  /** The file name of a name without `/` has no `/` either. */
  lemma FileNameSlashFree(name: string)
    requires '/' !in name
    ensures '/' !in ClassName(name) + ".php"
  {
    StudlyKeepsSlashOut(name, true);
    var studly := Studly(name);
    var base := BeforeLast(studly, ClassSuffix);
    PrefixSlashFree(base, studly);
    SlashFreeConcat(base, ClassSuffix);
    SlashFreeConcat(base + ClassSuffix, ".php");
  }

  lemma PrefixSlashFree(p: string, s: string)
    requires p <= s && '/' !in s
    ensures '/' !in p
  {
    forall i | 0 <= i < |p| ensures p[i] != '/' {
      assert p[i] == s[i] && s[i] in s;
    }
  }

  lemma SlashFreeConcat(a: string, b: string)
    requires '/' !in a && '/' !in b
    ensures '/' !in a + b
  {
    forall i | 0 <= i < |a + b| ensures (a + b)[i] != '/' {
      if i < |a| {
        assert (a + b)[i] == a[i] && a[i] in a;
      } else {
        assert (a + b)[i] == b[i - |a|] && b[i - |a|] in b;
      }
    }
  }

  /** `Str::studly` brings in no `/`. */
  lemma {:induction false} StudlyKeepsSlashOut(s: string, wordStart: bool)
    requires '/' !in s
    ensures '/' !in StudlyFrom(s, wordStart)
  {
    if s != [] {
      assert s[0] in s;
      StudlyKeepsSlashOut(s[1..], true);
      StudlyKeepsSlashOut(s[1..], false);
    }
  }
}
