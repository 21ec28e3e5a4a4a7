/** What the option parser promises: it undoes a printer, and respects bundling and permuting. */
module GetoptLaws {
  import opened Options
  import opened Getopt

  datatype Result<T, E> = Ok(value: T) | Err(error: E)

  /** `getopt`: the options if all parsed, else the first error. */
  function GetoptResult(o: Outcome): Result<(seq<Opt>, seq<string>), OptError>
    decreases |o.each|
  {
    if o.each == [] then Ok(([], o.rest))
    else if o.each[0].Bad? then Err(o.each[0].error)
    else
      match GetoptResult(Outcome(o.each[1..], o.rest))
      case Err(e) => Err(e)
      case Ok((opts, rest)) => Ok(([o.each[0].opt] + opts, rest))
  }

  // ---------------------------------------------------------------- complete groups

  predicate Missing(p: Parsed) {
    p.Bad? && (p.error.RequiresArgument? || p.error.LongRequiresArgument?)
  }

  predicate AnyMissing(parsed: seq<Parsed>) {
    exists i :: 0 <= i < |parsed| && Missing(parsed[i])
  }

  predicate IsOperand(a: string) {
    !IsLong(a) && !IsShort(a)
  }

  /** An option together with the argument it takes, if any; nothing is missing. */
  ghost predicate CompleteGroup(g: seq<string>, opts: string, longs: seq<LongOpt>) {
    && g != [] && g[0] != "--" && !IsOperand(g[0])
    && OptionGroup(g, opts, longs).used == |g|
    && !AnyMissing(OptionGroup(g, opts, longs).parsed)
  }

  /** A bundle that misses no argument does not look at the next one. */
  lemma {:induction false} BundleIgnoresNext(letters: string, opts: string, next: Option<string>)
    ensures AnyMissing(Bundle(letters, None, opts).parsed) || Bundle(letters, next, opts) == Bundle(letters, None, opts)
  {
    if letters != [] {
      var all := Bundle(letters, None, opts).parsed;
      if WantsArg(opts, letters[0]) != Some(true) {
        BundleIgnoresNext(letters[1..], opts, next);
        var g := Bundle(letters[1..], None, opts).parsed;
        if AnyMissing(g) {
          var i :| 0 <= i < |g| && Missing(g[i]);
          assert all[1 + i] == g[i];
        }
      } else if |letters| == 1 {
        assert Missing(all[0]);
      }
    }
  }

  /** A complete group parses the same whatever follows it. */
  lemma GroupIsLocal(g: seq<string>, tail: seq<string>, opts: string, longs: seq<LongOpt>)
    requires CompleteGroup(g, opts, longs)
    ensures OptionGroup(g + tail, opts, longs) == OptionGroup(g, opts, longs)
  {
    var all := g + tail;
    assert all[0] == g[0];
    if |g| > 1 {
      assert all[1] == g[1];
    } else if IsLong(g[0]) {
      assert !Missing(OptionGroup(g, opts, longs).parsed[0]);
    } else {
      BundleIgnoresNext(g[0][1..], opts, Next(all));
    }
  }

  lemma ScanGroup(stop: bool, g: seq<string>, tail: seq<string>, opts: string, longs: seq<LongOpt>)
    requires CompleteGroup(g, opts, longs)
    ensures Scan(stop, g + tail, opts, longs)
         == Before(OptionGroup(g, opts, longs).parsed, [], Scan(stop, tail, opts, longs))
  {
    GroupIsLocal(g, tail, opts, longs);
    assert (g + tail)[|g|..] == tail;
    assert [] + Scan(stop, tail, opts, longs).rest == Scan(stop, tail, opts, longs).rest;
  }

  // ---------------------------------------------------------------- printing

  /** An option as a caller may write it. */
  datatype Item =
    | Letter(flag: char)
    | LetterInline(flag: char, arg: string)
    | LetterArg(flag: char, arg: string)
    | Word(name: string)
    | WordInline(name: string, arg: string)
    | WordArg(name: string, arg: string)

  function Render(it: Item): seq<string> {
    match it
    case Letter(f) => [['-', f]]
    case LetterInline(f, arg) => [['-', f] + arg]
    case LetterArg(f, arg) => [['-', f], arg]
    case Word(name) => ["--" + name]
    case WordInline(name, arg) => ["--" + name + "=" + arg]
    case WordArg(name, arg) => ["--" + name, arg]
  }

  function RenderAll(items: seq<Item>): seq<string> {
    if items == [] then [] else Render(items[0]) + RenderAll(items[1..])
  }

  /** The item fits the tables: known, with an argument exactly when it takes one. */
  predicate Valid(it: Item, opts: string, longs: seq<LongOpt>) {
    match it
    case Letter(f) => f != '-' && WantsArg(opts, f) == Some(false)
    case LetterInline(f, arg) => f != '-' && WantsArg(opts, f) == Some(true) && arg != []
    case LetterArg(f, arg) => f != '-' && WantsArg(opts, f) == Some(true)
    case Word(name) =>
      name != [] && '=' !in name && LongNamed(longs, name).Found? && !LongNamed(longs, name).spec.takesArg
    case WordInline(name, arg) =>
      '=' !in name && LongNamed(longs, name).Found? && LongNamed(longs, name).spec.takesArg
    case WordArg(name, arg) =>
      name != [] && '=' !in name && LongNamed(longs, name).Found? && LongNamed(longs, name).spec.takesArg
  }

  function Meaning(it: Item, opts: string, longs: seq<LongOpt>): Opt
    requires Valid(it, opts, longs)
  {
    match it
    case Letter(f) => Opt(f, None, None)
    case LetterInline(f, arg) => Opt(f, None, Some(arg))
    case LetterArg(f, arg) => Opt(f, None, Some(arg))
    case Word(name) => LongMeaning(LongNamed(longs, name).spec, None)
    case WordInline(name, arg) => LongMeaning(LongNamed(longs, name).spec, Some(arg))
    case WordArg(name, arg) => LongMeaning(LongNamed(longs, name).spec, Some(arg))
  }

  function LongMeaning(spec: LongOpt, arg: Option<string>): Opt {
    Opt(if spec.short.Some? then spec.short.value else '\0', Some(spec.name), arg)
  }

  function Meanings(items: seq<Item>, opts: string, longs: seq<LongOpt>): seq<Opt>
    requires forall it :: it in items ==> Valid(it, opts, longs)
  {
    if items == [] then [] else [Meaning(items[0], opts, longs)] + Meanings(items[1..], opts, longs)
  }

  lemma {:induction false} SplitWithout(name: string)
    requires '=' !in name
    ensures SplitOnce(name) == (name, None)
  {
    if name != [] {
      SplitWithout(name[1..]);
      assert name == [name[0]] + name[1..];
    }
  }

  lemma {:induction false} SplitWith(name: string, arg: string)
    requires '=' !in name
    ensures SplitOnce(name + "=" + arg) == (name, Some(arg))
  {
    var s := name + "=" + arg;
    if name == [] {
      assert s[0] == '=' && s[1..] == arg;
    } else {
      assert s[1..] == name[1..] + "=" + arg;
      SplitWith(name[1..], arg);
      assert name == [name[0]] + name[1..];
    }
  }

  lemma LetterIsGroup(it: Item, opts: string, longs: seq<LongOpt>)
    requires Valid(it, opts, longs) && (it.Letter? || it.LetterInline? || it.LetterArg?)
    ensures OptionGroup(Render(it), opts, longs) == Group([Good(Meaning(it, opts, longs))], |Render(it)|)
    ensures Render(it)[0] != "--" && IsShort(Render(it)[0])
  {
    var f, letters := it.flag, Render(it)[0][1..];
    match it
    case Letter(_) =>
      assert letters == [f] && [f][1..] == [];
      assert Bundle([f], None, opts) == Group([Good(Opt(f, None, None))] + [], 0);
    case LetterInline(_, arg) =>
      assert letters == [f] + arg && letters[1..] == arg;
    case LetterArg(_, arg) =>
      assert letters == [f];
      assert Bundle([f], Some(arg), opts) == Group([Good(Opt(f, None, Some(arg)))], 1);
  }

  lemma WordIsGroup(it: Item, opts: string, longs: seq<LongOpt>)
    requires Valid(it, opts, longs) && (it.Word? || it.WordInline? || it.WordArg?)
    ensures OptionGroup(Render(it), opts, longs) == Group([Good(Meaning(it, opts, longs))], |Render(it)|)
    ensures Render(it)[0] != "--" && IsLong(Render(it)[0])
  {
    var whole := Render(it)[0][2..];
    if it.WordInline? {
      assert Render(it)[0] == "--" + (it.name + "=" + it.arg);
      assert whole == it.name + "=" + it.arg;
      SplitWith(it.name, it.arg);
      assert |Render(it)[0]| >= 3;
    } else {
      assert whole == it.name;
      SplitWithout(it.name);
      assert |Render(it)[0]| >= 3;
    }
  }

  lemma ItemIsGroup(it: Item, opts: string, longs: seq<LongOpt>)
    requires Valid(it, opts, longs)
    ensures CompleteGroup(Render(it), opts, longs)
    ensures OptionGroup(Render(it), opts, longs).parsed == [Good(Meaning(it, opts, longs))]
  {
    if it.Letter? || it.LetterInline? || it.LetterArg? {
      LetterIsGroup(it, opts, longs);
    } else {
      WordIsGroup(it, opts, longs);
    }
  }

  /** Printed options, `--` and operands parse back to those options and those operands. */
  lemma {:induction false} ParseUndoesRender(stop: bool, items: seq<Item>, operands: seq<string>,
                                             opts: string, longs: seq<LongOpt>)
    requires forall it :: it in items ==> Valid(it, opts, longs)
    ensures GetoptResult(Scan(stop, RenderAll(items) + ["--"] + operands, opts, longs))
         == Ok((Meanings(items, opts, longs), operands))
  {
    var args := RenderAll(items) + ["--"] + operands;
    if items == [] {
      assert args[0] == "--" && args[1..] == operands;
    } else {
      var tail := RenderAll(items[1..]) + ["--"] + operands;
      assert args == Render(items[0]) + tail;
      ItemIsGroup(items[0], opts, longs);
      ScanGroup(stop, Render(items[0]), tail, opts, longs);
      ParseUndoesRender(stop, items[1..], operands, opts, longs);
      FirstGood(Meaning(items[0], opts, longs), Scan(stop, tail, opts, longs));
    }
  }

  lemma FirstGood(opt: Opt, o: Outcome)
    requires GetoptResult(o).Ok?
    ensures GetoptResult(Before([Good(opt)], [], o))
         == Ok(([opt] + GetoptResult(o).value.0, GetoptResult(o).value.1))
  {
    var b := Before([Good(opt)], [], o);
    assert b.each[1..] == o.each && b.rest == o.rest;
  }

  // ---------------------------------------------------------------- abbreviations

  lemma {:induction false} ExactIsNamed(longs: seq<LongOpt>, name: string)
    ensures Exact(longs, name).None? <==> forall l :: l in longs ==> l.name != name
    ensures Exact(longs, name).Some? ==> Exact(longs, name).value in longs && Exact(longs, name).value.name == name
  {
    if longs != [] {
      ExactIsNamed(longs[1..], name);
    }
  }

  predicate Completes(l: LongOpt, name: string) {
    name != [] && name <= l.name
  }

  lemma {:induction false} WithPrefixIsFilter(longs: seq<LongOpt>, name: string)
    ensures forall l :: l in WithPrefix(longs, name) <==> l in longs && Completes(l, name)
  {
    if longs != [] {
      WithPrefixIsFilter(longs[1..], name);
      assert longs == [longs[0]] + longs[1..];
    }
  }

  /** The first long option of that name. */
  predicate FirstNamed(longs: seq<LongOpt>, name: string, i: int) {
    0 <= i < |longs| && longs[i].name == name && forall j :: 0 <= j < i ==> longs[j].name != name
  }

  /** The first long option the name begins, where none has it. */
  predicate FirstCompleted(longs: seq<LongOpt>, name: string, i: int) {
    0 <= i < |longs| && Completes(longs[i], name) && forall j :: 0 <= j < i ==> !Completes(longs[j], name)
  }

  lemma {:induction false} ExactIsFirst(longs: seq<LongOpt>, name: string)
    ensures Exact(longs, name).Some? ==> exists i :: FirstNamed(longs, name, i) && Exact(longs, name).value == longs[i]
  {
    if longs != [] && longs[0].name != name {
      ExactIsFirst(longs[1..], name);
      if Exact(longs, name).Some? {
        var i :| FirstNamed(longs[1..], name, i) && Exact(longs, name).value == longs[1..][i];
        assert forall j :: 0 < j <= i ==> longs[j] == longs[1..][j - 1];
        assert FirstNamed(longs, name, i + 1) && longs[i + 1] == longs[1..][i];
      }
    } else if longs != [] {
      assert FirstNamed(longs, name, 0);
    }
  }

  lemma {:induction false} PrefixIsFirst(longs: seq<LongOpt>, name: string)
    ensures WithPrefix(longs, name) != [] ==>
      exists i :: FirstCompleted(longs, name, i) && WithPrefix(longs, name)[0] == longs[i]
  {
    if longs != [] && !Completes(longs[0], name) {
      PrefixIsFirst(longs[1..], name);
      assert WithPrefix(longs, name) == WithPrefix(longs[1..], name);
      if WithPrefix(longs, name) != [] {
        var i :| FirstCompleted(longs[1..], name, i) && WithPrefix(longs, name)[0] == longs[1..][i];
        assert forall j :: 0 < j <= i ==> longs[j] == longs[1..][j - 1];
        assert FirstCompleted(longs, name, i + 1) && longs[i + 1] == longs[1..][i];
      }
    } else if longs != [] {
      assert FirstCompleted(longs, name, 0);
    }
  }

  /** Both take an argument or neither, and both stand for the same letter. */
  predicate SameOption(a: LongOpt, b: LongOpt) {
    a.takesArg == b.takesArg && a.short.Some? && b.short.Some? && a.short.value == b.short.value
  }

  /**
   * A long name is unknown exactly when it is neither listed nor begins a listed one. Listed, it is the
   * first of that name. Otherwise it is the first it begins if all it begins mean one option, and
   * ambiguous, with their names, if they do not.
   */
  lemma LongNameMeans(longs: seq<LongOpt>, name: string)
    ensures LongNamed(longs, name).Unknown? <==> forall l :: l in longs ==> l.name != name && !Completes(l, name)
    ensures (exists l :: l in longs && l.name == name) ==>
      exists i :: FirstNamed(longs, name, i) && LongNamed(longs, name) == Found(longs[i])
    ensures (forall l :: l in longs ==> l.name != name) && LongNamed(longs, name).Found? ==>
      exists i :: FirstCompleted(longs, name, i) && LongNamed(longs, name) == Found(longs[i])
                  && forall l :: l in longs && Completes(l, name) ==> l == longs[i] || SameOption(longs[i], l)
    ensures LongNamed(longs, name).Several? ==>
      && (forall l :: l in longs ==> l.name != name)
      && (exists a, b :: a in longs && b in longs && Completes(a, name) && Completes(b, name) && !SameOption(a, b))
      && (forall n :: n in LongNamed(longs, name).names <==>
            exists l :: l in longs && Completes(l, name) && l.name == n)
  {
    ExactIsNamed(longs, name);
    WithPrefixIsFilter(longs, name);
    ExactIsFirst(longs, name);
    PrefixIsFirst(longs, name);
    var found := WithPrefix(longs, name);
    hide Exact, WithPrefix, Completes;
    if Exact(longs, name).None? && found != [] {
      assert found == [found[0]] + found[1..];
      assert found[0] in found;
      if l :| l in found[1..] && !SameAs(found[0], l) {
        assert l in found;
        NamesOf(found);
      } else {
        AllSame(found);
      }
    }
  }

  lemma AllSame(found: seq<LongOpt>)
    requires found != [] && forall l :: l in found[1..] ==> SameAs(found[0], l)
    ensures forall l :: l in found ==> l == found[0] || SameOption(found[0], l)
  {
    assert found == [found[0]] + found[1..];
  }

  lemma NamesOf(found: seq<LongOpt>)
    ensures var names := seq(|found|, i requires 0 <= i < |found| => found[i].name);
      forall n :: n in names <==> exists l :: l in found && l.name == n
  {
    var names := seq(|found|, i requires 0 <= i < |found| => found[i].name);
    forall n | n in names
      ensures exists l :: l in found && l.name == n
    {
      var i :| 0 <= i < |names| && names[i] == n;
      assert found[i] in found;
    }
    forall l | l in found
      ensures l.name in names
    {
      var i :| 0 <= i < |found| && found[i] == l;
      assert names[i] == l.name;
    }
  }

  // ---------------------------------------------------------------- bundling

  /** The result of a letter, as against that of a long option. */
  predicate OfLetter(p: Parsed) {
    match p
    case Good(opt) => opt.long.None?
    case Bad(e) => e.InvalidOption? || e.RequiresArgument?
  }

  lemma ScanOption(stop: bool, args: seq<string>, opts: string, longs: seq<LongOpt>)
    requires args != [] && args[0] != "--" && !IsOperand(args[0])
    ensures var g := OptionGroup(args, opts, longs);
      var o := Scan(stop, args[g.used..], opts, longs);
      Scan(stop, args, opts, longs).each == g.parsed + o.each && Scan(stop, args, opts, longs).rest == o.rest
  {
  }

  /** Without the argument, the first letter's result, then those of the rest of the bundle. */
  lemma BundleHead(x: char, ys: string, next: Option<string>, opts: string)
    ensures var g := Bundle([x] + ys, next, opts);
      && g.parsed != [] && OfLetter(g.parsed[0])
      && (WantsArg(opts, x) != Some(true) ==>
            && Bundle([x], None, opts) == Group([g.parsed[0]], 0) && !Missing(g.parsed[0])
            && g == Group([g.parsed[0]] + Bundle(ys, next, opts).parsed, Bundle(ys, next, opts).used))
  {
    var letters := [x] + ys;
    assert letters[0] == x && letters[1..] == ys;
    assert [x][1..] == [];
  }

  lemma BundleOption(stop: bool, letters: string, rest: seq<string>, opts: string, longs: seq<LongOpt>)
    requires letters != [] && letters[0] != '-'
    ensures var args := [['-'] + letters] + rest;
      var g := Bundle(letters, Next(args), opts);
      var o := Scan(stop, rest[g.used..], opts, longs);
      && g.used <= |rest|
      && Scan(stop, args, opts, longs).each == g.parsed + o.each && Scan(stop, args, opts, longs).rest == o.rest
  {
    var args := [['-'] + letters] + rest;
    var g := Bundle(letters, Next(args), opts);
    assert args[0][1..] == letters;
    hide Scan, Bundle;
    ScanOption(stop, args, opts, longs);
    assert args[1 + g.used..] == rest[g.used..];
  }

  lemma LetterInBundle(stop: bool, x: char, ys: string, rest: seq<string>, opts: string, longs: seq<LongOpt>)
    requires x != '-' && ys != [] && WantsArg(opts, x) != Some(true)
    ensures var g := Bundle(ys, Next([ys] + rest), opts);
      var one := Scan(stop, [['-', x] + ys] + rest, opts, longs);
      && g.used <= |rest|
      && one.each == Bundle([x], None, opts).parsed + (g.parsed + Scan(stop, rest[g.used..], opts, longs).each)
      && one.rest == Scan(stop, rest[g.used..], opts, longs).rest
  {
    var args := [['-', x] + ys] + rest;
    assert Next(args) == Next([ys] + rest);
    assert ['-'] + ([x] + ys) == ['-', x] + ys;
    hide Scan, Bundle, WantsArg, Next;
    BundleHead(x, ys, Next(args), opts);
    BundleOption(stop, [x] + ys, rest, opts, longs);
  }

  lemma LetterAlone(stop: bool, x: char, tail: seq<string>, opts: string, longs: seq<LongOpt>)
    requires x != '-' && WantsArg(opts, x) != Some(true)
    ensures Scan(stop, [['-', x]] + tail, opts, longs)
         == Before(Bundle([x], None, opts).parsed, [], Scan(stop, tail, opts, longs))
  {
    var lone: seq<string> := [['-', x]];
    assert lone[0][1..] == [x];
    BundleHead(x, [], None, opts);
    ScanGroup(stop, lone, tail, opts, longs);
  }

  /**
   * Splitting the first letter off a bundle changes nothing exactly when that letter takes no
   * argument and the next is not a dash, whatever follows.
   */
  lemma BundleSplits(stop: bool, x: char, ys: string, rest: seq<string>, opts: string, longs: seq<LongOpt>)
    requires x != '-' && ys != []
    ensures Scan(stop, [['-', x] + ys] + rest, opts, longs) == Scan(stop, [['-', x], "-" + ys] + rest, opts, longs)
       <==> WantsArg(opts, x) != Some(true) && ys[0] != '-'
  {
    if WantsArg(opts, x) == Some(true) {
      TakesWhatFollows(stop, x, ys, rest, opts, longs);
    } else {
      SplitIsSame(stop, x, ys, rest, opts, longs);
    }
  }

  lemma SplitIsSame(stop: bool, x: char, ys: string, rest: seq<string>, opts: string, longs: seq<LongOpt>)
    requires x != '-' && ys != [] && WantsArg(opts, x) != Some(true)
    ensures Scan(stop, [['-', x] + ys] + rest, opts, longs) == Scan(stop, [['-', x], "-" + ys] + rest, opts, longs)
       <==> ys[0] != '-'
  {
    hide Bundle, Scan, OfLetter;
    var first, g := Bundle([x], None, opts).parsed, Bundle(ys, Next([ys] + rest), opts);
    LetterInBundle(stop, x, ys, rest, opts, longs);
    RestOfBundle(stop, ys, rest, opts, longs);
    LetterAlone(stop, x, ["-" + ys] + rest, opts, longs);
    assert [['-', x], "-" + ys] + rest == [['-', x]] + (["-" + ys] + rest);
    var o := Scan(stop, ["-" + ys] + rest, opts, longs);
    SameAfter(first, g.parsed + Scan(stop, rest[g.used..], opts, longs).each, o.each);
    assert [] + o.rest == o.rest;
  }

  lemma SameAfter(first: seq<Parsed>, a: seq<Parsed>, b: seq<Parsed>)
    ensures first + a == first + b <==> a == b
  {
    assert (first + a)[|first|..] == a && (first + b)[|first|..] == b;
  }

  lemma TakesWhatFollows(stop: bool, x: char, ys: string, rest: seq<string>, opts: string, longs: seq<LongOpt>)
    requires x != '-' && ys != [] && WantsArg(opts, x) == Some(true)
    ensures Scan(stop, [['-', x] + ys] + rest, opts, longs) != Scan(stop, [['-', x], "-" + ys] + rest, opts, longs)
  {
    var one, two := [['-', x] + ys] + rest, [['-', x], "-" + ys] + rest;
    assert one[0][1..] == [x] + ys && ([x] + ys)[1..] == ys;
    assert two[0][1..] == [x] && two[1] == "-" + ys;
    ScanOption(stop, one, opts, longs);
    ScanOption(stop, two, opts, longs);
    assert Scan(stop, one, opts, longs).each[0] == Good(Opt(x, None, Some(ys)));
    assert Scan(stop, two, opts, longs).each[0] == Good(Opt(x, None, Some("-" + ys)));
    assert |ys| != |"-" + ys|;
  }

  /** The letters after the first parse alike on their own, unless a dash in front reads as a long option. */
  lemma RestOfBundle(stop: bool, ys: string, rest: seq<string>, opts: string, longs: seq<LongOpt>)
    requires ys != []
    ensures var g := Bundle(ys, Next([ys] + rest), opts);
      var o := Scan(stop, ["-" + ys] + rest, opts, longs);
      && g.used <= |rest| && g.parsed != [] && OfLetter(g.parsed[0])
      && (ys[0] != '-' ==>
            && o.each == g.parsed + Scan(stop, rest[g.used..], opts, longs).each
            && o.rest == Scan(stop, rest[g.used..], opts, longs).rest)
      && (ys[0] == '-' ==> o.each == [] || !OfLetter(o.each[0]))
  {
    assert ys == [ys[0]] + ys[1..];
    BundleHead(ys[0], ys[1..], Next([ys] + rest), opts);
    if ys[0] != '-' {
      LettersAlone(stop, ys, rest, opts, longs);
    } else {
      hide Bundle, OfLetter;
      NotLetters(stop, ys, rest, opts, longs);
    }
  }

  lemma LettersAlone(stop: bool, ys: string, rest: seq<string>, opts: string, longs: seq<LongOpt>)
    requires ys != [] && ys[0] != '-'
    ensures var g := Bundle(ys, Next([ys] + rest), opts);
      var o := Scan(stop, ["-" + ys] + rest, opts, longs);
      && g.used <= |rest| && o.each == g.parsed + Scan(stop, rest[g.used..], opts, longs).each
      && o.rest == Scan(stop, rest[g.used..], opts, longs).rest
  {
    hide Bundle, Scan;
    var args := ["-" + ys] + rest;
    var g := Bundle(ys, Next([ys] + rest), opts);
    assert Next(args) == Next([ys] + rest) && args[0][1..] == ys;
    ScanOption(stop, args, opts, longs);
    assert args[1 + g.used..] == rest[g.used..];
  }

  lemma NotLetters(stop: bool, ys: string, rest: seq<string>, opts: string, longs: seq<LongOpt>)
    requires ys != [] && ys[0] == '-'
    ensures var o := Scan(stop, ["-" + ys] + rest, opts, longs); o.each == [] || !OfLetter(o.each[0])
  {
    var args := ["-" + ys] + rest;
    assert args[0][1] == '-';
    if args[0] != "--" {
      ScanOption(stop, args, opts, longs);
    }
  }

  // ---------------------------------------------------------------- permuting

  /** When permuting, an operand may stand before a complete group or after it. */
  lemma OperandCommutes(a: string, g: seq<string>, tail: seq<string>, opts: string, longs: seq<LongOpt>)
    requires IsOperand(a) && CompleteGroup(g, opts, longs)
    ensures Scan(false, [a] + g + tail, opts, longs) == Scan(false, g + [a] + tail, opts, longs)
  {
    hide Scan, IsOperand;
    assert [a] + g + tail == [a] + (g + tail) && g + [a] + tail == g + ([a] + tail);
    ScanOperand(a, g + tail, opts, longs);
    ScanGroup(false, g, tail, opts, longs);
    ScanGroup(false, g, [a] + tail, opts, longs);
    ScanOperand(a, tail, opts, longs);
  }

  lemma ScanOperand(a: string, tail: seq<string>, opts: string, longs: seq<LongOpt>)
    requires IsOperand(a)
    ensures Scan(false, [a] + tail, opts, longs).each == Scan(false, tail, opts, longs).each
    ensures Scan(false, [a] + tail, opts, longs).rest == [a] + Scan(false, tail, opts, longs).rest
  {
    assert ([a] + tail)[1..] == tail;
  }

  /** What is left of `args` when some are taken out, the others keeping their order. */
  ghost predicate Subsequence(s: seq<string>, args: seq<string>) {
    if s == [] then true
    else if args == [] then false
    else (s[0] == args[0] && Subsequence(s[1..], args[1..])) || Subsequence(s, args[1..])
  }

  lemma {:induction false} SubsequenceOfItself(s: seq<string>)
    ensures Subsequence(s, s)
  {
    if s != [] {
      SubsequenceOfItself(s[1..]);
    }
  }

  lemma {:induction false} SubsequenceOfLonger(s: seq<string>, args: seq<string>, k: nat)
    requires k <= |args| && Subsequence(s, args[k..])
    ensures Subsequence(s, args)
  {
    if k > 0 {
      assert args[1..][k - 1..] == args[k..];
      SubsequenceOfLonger(s, args[1..], k - 1);
    }
  }

  /** Operands keep their order. */
  lemma {:induction false} OperandsKeepOrder(stop: bool, args: seq<string>, opts: string, longs: seq<LongOpt>)
    ensures Subsequence(Scan(stop, args, opts, longs).rest, args)
    decreases |args|
  {
    var r := Scan(stop, args, opts, longs).rest;
    if args == [] {
    } else if args[0] == "--" {
      SubsequenceOfItself(args[1..]);
      SubsequenceOfLonger(r, args, 1);
    } else if !IsOperand(args[0]) {
      var used := OptionGroup(args, opts, longs).used;
      OperandsKeepOrder(stop, args[used..], opts, longs);
      SubsequenceOfLonger(r, args, used);
    } else if stop {
      SubsequenceOfItself(args);
    } else {
      OperandsKeepOrder(stop, args[1..], opts, longs);
    }
  }

  /** Where the first operand stops the scan, the operands are the arguments' tail. */
  lemma {:induction false} StoppedOperandsAreTail(args: seq<string>, opts: string, longs: seq<LongOpt>)
    ensures exists k :: 0 <= k <= |args| && Scan(true, args, opts, longs).rest == args[k..]
    decreases |args|
  {
    var r := Scan(true, args, opts, longs).rest;
    if args == [] || (args[0] != "--" && IsOperand(args[0])) {
      assert r == args[0..];
    } else if args[0] == "--" {
      assert r == args[1..];
    } else {
      var used := OptionGroup(args, opts, longs).used;
      StoppedOperandsAreTail(args[used..], opts, longs);
      var k :| 0 <= k <= |args[used..]| && r == args[used..][k..];
      SliceOfTail(args, used, k);
      assert r == args[used + k..];
    }
  }

  lemma SliceOfTail(args: seq<string>, a: nat, k: nat)
    requires a <= |args| && k <= |args[a..]|
    ensures args[a..][k..] == args[a + k..]
  {
  }

  // ---------------------------------------------------------------- the option string

  /** A letter followed by a colon takes an argument. */
  lemma {:induction false} LetterWithColon(pre: string, c: char, post: string)
    requires c != ':' && c !in pre
    ensures WantsArg(pre + [c, ':'] + post, c) == Some(true)
  {
    var opts := pre + [c, ':'] + post;
    if pre != [] {
      assert opts[1..] == pre[1..] + [c, ':'] + post;
      LetterWithColon(pre[1..], c, post);
    }
  }

  /** A letter followed by anything else, or by nothing, takes none. */
  lemma {:induction false} LetterWithoutColon(pre: string, c: char, post: string)
    requires c != ':' && c !in pre && (post == [] || post[0] != ':')
    ensures WantsArg(pre + [c] + post, c) == Some(false)
  {
    var opts := pre + [c] + post;
    if pre != [] {
      assert opts[1..] == pre[1..] + [c] + post;
      LetterWithoutColon(pre[1..], c, post);
    }
  }

  lemma {:induction false} UnlistedLetter(opts: string, c: char)
    ensures WantsArg(opts, c).None? <==> c == ':' || c !in opts
  {
    if opts != [] && (opts[0] == ':' || opts[0] != c) {
      UnlistedLetter(opts[1..], c);
      assert opts == [opts[0]] + opts[1..];
    }
  }

  datatype Flag = Flag(letter: char, takesArg: bool)

  /** The option string of a table of letters. */
  function OptString(table: seq<Flag>): string {
    if table == [] then []
    else [table[0].letter] + (if table[0].takesArg then [':'] else []) + OptString(table[1..])
  }

  predicate Letters(table: seq<Flag>) {
    && (forall i :: 0 <= i < |table| ==> table[i].letter != ':')
    && (forall i, j :: 0 <= i < j < |table| ==> table[i].letter != table[j].letter)
  }

  lemma {:induction false} TableMeans(table: seq<Flag>, c: char)
    requires Letters(table)
    ensures WantsArg(OptString(table), c).Some? <==> exists i :: 0 <= i < |table| && table[i].letter == c
    ensures forall i :: 0 <= i < |table| && table[i].letter == c ==>
      WantsArg(OptString(table), c) == Some(table[i].takesArg)
  {
    if table != [] {
      var rest, tail := table[1..], OptString(table[1..]);
      assert forall i :: 0 < i < |table| ==> table[i] == rest[i - 1];
      assert tail != [] ==> tail[0] == rest[0].letter;
      TableMeans(rest, c);
      FirstFlag(table[0], tail, c);
      if i :| 0 <= i < |rest| && rest[i].letter == c {
        assert table[i + 1].letter == c;
      }
    }
  }

  lemma FirstFlag(f: Flag, tail: string, c: char)
    requires f.letter != ':' && (tail == [] || tail[0] != ':')
    ensures var opts := [f.letter] + (if f.takesArg then [':'] else []) + tail;
      WantsArg(opts, c) == if c == f.letter then Some(f.takesArg) else WantsArg(tail, c)
  {
    var opts := [f.letter] + (if f.takesArg then [':'] else []) + tail;
    if c == f.letter {
      if f.takesArg {
        assert opts == [] + [c, ':'] + tail;
        LetterWithColon([], c, tail);
      } else {
        assert opts == [] + [c] + tail;
        LetterWithoutColon([], c, tail);
      }
    } else if f.takesArg {
      assert opts[1..] == [':'] + tail && ([':'] + tail)[1..] == tail;
    } else {
      assert opts[1..] == tail;
    }
  }

  // ---------------------------------------------------------------- from tables to options

  /** The item is written with letters of the table and with names listed, an argument where one is taken. */
  ghost predicate FitsTable(it: Item, table: seq<Flag>, longs: seq<LongOpt>) {
    match it
    case Letter(f) => f != '-' && Flag(f, false) in table
    case LetterInline(f, arg) => f != '-' && Flag(f, true) in table && arg != []
    case LetterArg(f, _) => f != '-' && Flag(f, true) in table
    case Word(name) => name != [] && '=' !in name && (exists i :: FirstNamed(longs, name, i) && !longs[i].takesArg)
    case WordInline(name, _) => '=' !in name && (exists i :: FirstNamed(longs, name, i) && longs[i].takesArg)
    case WordArg(name, _) =>
      name != [] && '=' !in name && (exists i :: FirstNamed(longs, name, i) && longs[i].takesArg)
  }

  /** What was written: the letter or the name, and the argument. */
  ghost predicate Gave(opt: Opt, it: Item, longs: seq<LongOpt>) {
    match it
    case Letter(f) => opt == Opt(f, None, None)
    case LetterInline(f, arg) => opt == Opt(f, None, Some(arg))
    case LetterArg(f, arg) => opt == Opt(f, None, Some(arg))
    case Word(name) => opt.long == Some(name) && opt.arg == None && FlagOf(opt.flag, name, longs)
    case WordInline(name, arg) => opt.long == Some(name) && opt.arg == Some(arg) && FlagOf(opt.flag, name, longs)
    case WordArg(name, arg) => opt.long == Some(name) && opt.arg == Some(arg) && FlagOf(opt.flag, name, longs)
  }

  /** The letter a long option stands for, or the zero character. */
  ghost predicate FlagOf(flag: char, name: string, longs: seq<LongOpt>) {
    exists i :: FirstNamed(longs, name, i) && flag == match longs[i].short case Some(c) => c case None => '\0'
  }

  lemma ListedIsNamed(longs: seq<LongOpt>, name: string, i: int)
    requires FirstNamed(longs, name, i)
    ensures LongNamed(longs, name) == Found(longs[i])
  {
    LongNameMeans(longs, name);
    assert longs[i] in longs;
    hide LongNamed;
    var k :| FirstNamed(longs, name, k) && LongNamed(longs, name) == Found(longs[k]);
  }

  lemma FlagMeans(table: seq<Flag>, f: char, takesArg: bool)
    requires Letters(table) && Flag(f, takesArg) in table
    ensures WantsArg(OptString(table), f) == Some(takesArg)
  {
    TableMeans(table, f);
    var i :| 0 <= i < |table| && table[i] == Flag(f, takesArg);
  }

  lemma FittingIsValid(it: Item, table: seq<Flag>, longs: seq<LongOpt>)
    requires Letters(table) && FitsTable(it, table, longs)
    ensures Valid(it, OptString(table), longs) && Gave(Meaning(it, OptString(table), longs), it, longs)
  {
    hide OptString, Letters, LongNamed;
    match it {
      case Letter(f) => FlagMeans(table, f, false);
      case LetterInline(f, _) => FlagMeans(table, f, true);
      case LetterArg(f, _) => FlagMeans(table, f, true);
      case Word(name) =>
        var i :| FirstNamed(longs, name, i) && !longs[i].takesArg;
        ListedIsNamed(longs, name, i);
      case WordInline(name, _) =>
        var i :| FirstNamed(longs, name, i) && longs[i].takesArg;
        ListedIsNamed(longs, name, i);
      case WordArg(name, _) =>
        var i :| FirstNamed(longs, name, i) && longs[i].takesArg;
        ListedIsNamed(longs, name, i);
    }
  }

  lemma {:induction false} MeaningsGiven(items: seq<Item>, table: seq<Flag>, longs: seq<LongOpt>, k: nat)
    requires Letters(table) && (forall it :: it in items ==> FitsTable(it, table, longs)) && k < |items|
    ensures forall it :: it in items ==> Valid(it, OptString(table), longs)
    ensures var opts := Meanings(items, OptString(table), longs); |opts| == |items| && Gave(opts[k], items[k], longs)
  {
    hide FitsTable, Valid, Gave, Letters;
    forall it | it in items
      ensures Valid(it, OptString(table), longs)
    {
      FittingIsValid(it, table, longs);
    }
    FittingIsValid(items[0], table, longs);
    if |items| > 1 {
      MeaningsGiven(items[1..], table, longs, if k > 0 then k - 1 else 0);
    } else {
      assert items[1..] == [];
    }
  }

  /** With or without a leading plus: the string of the table, and whether an operand stops the scan. */
  function OptStringOf(plus: bool, table: seq<Flag>): string {
    (if plus then ['+'] else []) + OptString(table)
  }

  lemma EachIs(plus: bool, table: seq<Flag>, args: seq<string>, longs: seq<LongOpt>)
    requires plus || table == [] || table[0].letter != '+'
    ensures Each(args, OptStringOf(plus, table), longs) == Scan(plus, args, OptString(table), longs)
  {
    hide Scan;
    if plus {
      assert OptStringOf(plus, table)[1..] == OptString(table);
    } else {
      assert [] + OptString(table) == OptString(table);
    }
  }

  /**
   * Options printed from a table of letters and a list of names, then `--` and any operands, give one
   * option for each, the one written, and those operands; with a leading plus as without.
   */
  lemma TableParses(plus: bool, items: seq<Item>, operands: seq<string>, table: seq<Flag>, longs: seq<LongOpt>, k: nat)
    requires Letters(table) && (plus || table == [] || table[0].letter != '+')
    requires forall it :: it in items ==> FitsTable(it, table, longs)
    ensures var r := GetoptResult(Each(RenderAll(items) + ["--"] + operands, OptStringOf(plus, table), longs));
      r.Ok? && r.value.1 == operands && |r.value.0| == |items|
      && (k < |items| ==> Gave(r.value.0[k], items[k], longs))
  {
    hide Letters, FitsTable, Gave, Scan, Each, OptStringOf, GetoptResult;
    EachIs(plus, table, RenderAll(items) + ["--"] + operands, longs);
    if items == [] {
      ParseUndoesRender(plus, items, operands, OptString(table), longs);
    } else {
      MeaningsGiven(items, table, longs, if k < |items| then k else 0);
      ParseUndoesRender(plus, items, operands, OptString(table), longs);
    }
  }

  // ---------------------------------------------------------------- operands

  /** An operand does not begin with a dash, or is just one. */
  lemma OperandMeans(a: string)
    ensures IsOperand(a) <==> a == "" || a == "-" || a[0] != '-'
  {
  }

  /** With a leading plus the first operand and all after it are operands, dashes or not. */
  lemma {:induction false} PlusStops(items: seq<Item>, a: string, tail: seq<string>, opts: string, longs: seq<LongOpt>)
    requires IsOperand(a) && forall it :: it in items ==> Valid(it, opts, longs)
    ensures GetoptResult(Each(RenderAll(items) + [a] + tail, "+" + opts, longs))
         == Ok((Meanings(items, opts, longs), [a] + tail))
  {
    assert ("+" + opts)[1..] == opts;
    StopsAt(items, a, tail, opts, longs);
  }

  lemma {:induction false} StopsAt(items: seq<Item>, a: string, tail: seq<string>, opts: string, longs: seq<LongOpt>)
    requires IsOperand(a) && forall it :: it in items ==> Valid(it, opts, longs)
    ensures GetoptResult(Scan(true, RenderAll(items) + [a] + tail, opts, longs))
         == Ok((Meanings(items, opts, longs), [a] + tail))
  {
    if items == [] {
      assert RenderAll(items) + [a] + tail == [a] + tail;
    } else {
      var rest := RenderAll(items[1..]) + [a] + tail;
      assert RenderAll(items) + [a] + tail == Render(items[0]) + rest;
      hide Scan, Valid, IsOperand;
      ItemIsGroup(items[0], opts, longs);
      ScanGroup(true, Render(items[0]), rest, opts, longs);
      StopsAt(items[1..], a, tail, opts, longs);
      FirstGood(Meaning(items[0], opts, longs), Scan(true, rest, opts, longs));
    }
  }

  // ---------------------------------------------------------------- errors

  /** What is wrong with a letter, first in what the arguments parse to. */
  lemma LetterErrors(stop: bool, x: char, tail: seq<string>, opts: string, longs: seq<LongOpt>)
    requires x != '-'
    ensures WantsArg(opts, x).None? ==>
      var each := Scan(stop, [['-', x]] + tail, opts, longs).each; each != [] && each[0] == Bad(InvalidOption(x))
    ensures WantsArg(opts, x) == Some(true) && tail == [] ==>
      Scan(stop, [['-', x]] + tail, opts, longs).each == [Bad(RequiresArgument(x))]
  {
    var args := [['-', x]] + tail;
    assert args[0][1..] == [x] && [x][1..] == [];
    assert Bundle([], Next(args), opts) == Group([], 0);
    ScanOption(stop, args, opts, longs);
    if tail == [] {
      assert args[1..] == [];
      assert Scan(stop, [], opts, longs) == Outcome([], []);
    }
  }

  /** What is wrong with a name. */
  lemma WordErrors(stop: bool, name: string, value: string, tail: seq<string>, opts: string, longs: seq<LongOpt>)
    requires name != [] && '=' !in name
    ensures LongNamed(longs, name).Unknown? ==>
      Scan(stop, ["--" + name] + tail, opts, longs).each[..1] == [Bad(Unrecognized(name))]
    ensures LongNamed(longs, name).Several? ==>
      Scan(stop, ["--" + name] + tail, opts, longs).each[..1] == [Bad(Ambiguous(name, LongNamed(longs, name).names))]
    ensures LongNamed(longs, name).Found? && LongNamed(longs, name).spec.takesArg && tail == [] ==>
      Scan(stop, ["--" + name] + tail, opts, longs).each[..1]
      == [Bad(LongRequiresArgument(LongNamed(longs, name).spec.name))]
    ensures LongNamed(longs, name).Found? && !LongNamed(longs, name).spec.takesArg ==>
      Scan(stop, ["--" + name + "=" + value] + tail, opts, longs).each[..1]
      == [Bad(LongAllowsNoArgument(LongNamed(longs, name).spec.name))]
  {
    hide LongNamed;
    PlainWord(stop, name, tail, opts, longs);
    ValuedWord(stop, name, value, tail, opts, longs);
  }

  lemma PlainWord(stop: bool, name: string, tail: seq<string>, opts: string, longs: seq<LongOpt>)
    requires name != [] && '=' !in name
    ensures var each := Scan(stop, ["--" + name] + tail, opts, longs).each;
      each != [] && match LongNamed(longs, name)
                    case Unknown => each[0] == Bad(Unrecognized(name))
                    case Several(names) => each[0] == Bad(Ambiguous(name, names))
                    case Found(spec) => spec.takesArg && tail == [] ==> each[0] == Bad(LongRequiresArgument(spec.name))
  {
    var args := ["--" + name] + tail;
    assert args[0][2..] == name && |args[0]| > 2;
    SplitWithout(name);
    hide LongNamed, Scan;
    ScanOption(stop, args, opts, longs);
  }

  lemma ValuedWord(stop: bool, name: string, value: string, tail: seq<string>, opts: string, longs: seq<LongOpt>)
    requires name != [] && '=' !in name
    ensures var each := Scan(stop, ["--" + name + "=" + value] + tail, opts, longs).each;
      each != [] && (LongNamed(longs, name).Found? && !LongNamed(longs, name).spec.takesArg ==>
        each[0] == Bad(LongAllowsNoArgument(LongNamed(longs, name).spec.name)))
  {
    var args := ["--" + name + "=" + value] + tail;
    assert args[0][2..] == name + "=" + value && |args[0]| > 2;
    SplitWith(name, value);
    hide LongNamed, Scan;
    ScanOption(stop, args, opts, longs);
  }
}
