/** Command-line options in the style of GNU `getopt_long`. */
module Getopt {
  import opened Options

  datatype Opt = Opt(flag: char, long: Option<string>, arg: Option<string>)
  datatype LongOpt = LongOpt(name: string, takesArg: bool, short: Option<char>)

  datatype OptError =
    | InvalidOption(flag: char)
    | RequiresArgument(flag: char)
    | Unrecognized(whole: string)
    | Ambiguous(whole: string, names: seq<string>)
    | LongRequiresArgument(name: string)
    | LongAllowsNoArgument(name: string)

  datatype Parsed = Good(opt: Opt) | Bad(error: OptError)

  /** The options in the order met, and the operands. */
  datatype Outcome = Outcome(each: seq<Parsed>, rest: seq<string>)

  datatype Named = Found(spec: LongOpt) | Unknown | Several(names: seq<string>)

  // ---------------------------------------------------------------- tables

  /** None for a letter the optstring does not list; otherwise whether a colon follows it. */
  function WantsArg(opts: string, c: char): Option<bool> {
    if opts == [] then None
    else if opts[0] == ':' || opts[0] != c then WantsArg(opts[1..], c)
    else Some(|opts| > 1 && opts[1] == ':')
  }

  /** `opt_wants_arg`: the iterator skips colons and looks one past the letter it finds. */
  method OptWantsArg(opts: string, c: char) returns (r: Option<bool>)
    ensures r == WantsArg(opts, c)
  {
    var it := 0;
    while it < |opts|
      invariant 0 <= it <= |opts|
      invariant WantsArg(opts, c) == WantsArg(opts[it..], c)
    {
      var ch := opts[it];
      it := it + 1;
      if ch == ':' {
        continue;
      }
      if ch == c {
        return Some(it < |opts| && opts[it] == ':');
      }
    }
    r := None;
  }

  function WithPrefix(longs: seq<LongOpt>, name: string): seq<LongOpt> {
    if longs == [] then []
    else (if name != [] && name <= longs[0].name then [longs[0]] else []) + WithPrefix(longs[1..], name)
  }

  function Exact(longs: seq<LongOpt>, name: string): Option<LongOpt> {
    if longs == [] then None
    else if longs[0].name == name then Some(longs[0]) else Exact(longs[1..], name)
  }

  predicate SameAs(first: LongOpt, l: LongOpt) {
    l.takesArg == first.takesArg && l.short.Some? && l.short == first.short
  }

  /** `long_named`: an exact name, else an abbreviation whose completions all mean one option. */
  function LongNamed(longs: seq<LongOpt>, name: string): Named {
    match Exact(longs, name)
    case Some(spec) => Found(spec)
    case None =>
      var found := WithPrefix(longs, name);
      if found == [] then Unknown
      else if forall l :: l in found[1..] ==> SameAs(found[0], l) then Found(found[0])
      else Several(seq(|found|, i requires 0 <= i < |found| => found[i].name))
  }

  function SplitOnce(s: string): (string, Option<string>) {
    if s == [] then ([], None)
    else if s[0] == '=' then ([], Some(s[1..]))
    else
      var (name, value) := SplitOnce(s[1..]);
      ([s[0]] + name, value)
  }

  // ---------------------------------------------------------------- one argument

  /** What one argument, with the argument after it if it takes one, parses to. */
  datatype Group = Group(parsed: seq<Parsed>, used: nat)

  predicate IsLong(a: string) {
    |a| >= 2 && a[0] == '-' && a[1] == '-'
  }

  predicate IsShort(a: string) {
    |a| >= 2 && a[0] == '-' && a[1] != '-'
  }

  function LongGroup(args: seq<string>, longs: seq<LongOpt>): (g: Group)
    requires args != [] && IsLong(args[0])
    ensures |g.parsed| == 1 && 1 <= g.used <= |args|
  {
    var whole := args[0][2..];
    var (name, inline) := SplitOnce(whole);
    match LongNamed(longs, name)
    case Unknown => Group([Bad(Unrecognized(whole))], 1)
    case Several(names) => Group([Bad(Ambiguous(whole, names))], 1)
    case Found(spec) =>
      var flag := if spec.short.Some? then spec.short.value else '\0';
      if !spec.takesArg then
        if inline.Some? then Group([Bad(LongAllowsNoArgument(spec.name))], 1)
        else Group([Good(Opt(flag, Some(spec.name), None))], 1)
      else if inline.Some? then Group([Good(Opt(flag, Some(spec.name), inline))], 1)
      else if |args| > 1 then Group([Good(Opt(flag, Some(spec.name), Some(args[1])))], 2)
      else Group([Bad(LongRequiresArgument(spec.name))], 1)
  }

  /** The letters of one bundle; the last may take the whole of the next argument. */
  function Bundle(letters: string, next: Option<string>, opts: string): (g: Group)
    ensures g.used <= 1 && (g.used == 1 ==> next.Some?)
    decreases letters
  {
    if letters == [] then Group([], 0)
    else
      var c := letters[0];
      match WantsArg(opts, c)
      case None =>
        var g := Bundle(letters[1..], next, opts);
        Group([Bad(InvalidOption(c))] + g.parsed, g.used)
      case Some(wants) =>
        if !wants then
          var g := Bundle(letters[1..], next, opts);
          Group([Good(Opt(c, None, None))] + g.parsed, g.used)
        else if |letters| > 1 then Group([Good(Opt(c, None, Some(letters[1..])))], 0)
        else if next.Some? then Group([Good(Opt(c, None, next))], 1)
        else Group([Bad(RequiresArgument(c))], 0)
  }

  function Next(args: seq<string>): Option<string> {
    if |args| > 1 then Some(args[1]) else None
  }

  function OptionGroup(args: seq<string>, opts: string, longs: seq<LongOpt>): (g: Group)
    requires args != [] && (IsLong(args[0]) || IsShort(args[0]))
    ensures 1 <= g.used <= |args|
  {
    if IsLong(args[0]) then LongGroup(args, longs)
    else
      var g := Bundle(args[0][1..], Next(args), opts);
      Group(g.parsed, 1 + g.used)
  }

  // ---------------------------------------------------------------- all arguments

  function Scan(stop: bool, args: seq<string>, opts: string, longs: seq<LongOpt>): (r: Outcome)
    decreases |args|
  {
    if args == [] then Outcome([], [])
    else if args[0] == "--" then Outcome([], args[1..])
    else if IsLong(args[0]) || IsShort(args[0]) then
      var g := OptionGroup(args, opts, longs);
      var r := Scan(stop, args[g.used..], opts, longs);
      Outcome(g.parsed + r.each, r.rest)
    else if stop then Outcome([], args)
    else
      var r := Scan(stop, args[1..], opts, longs);
      Outcome(r.each, [args[0]] + r.rest)
  }

  function Each(args: seq<string>, optstring: string, longs: seq<LongOpt>): Outcome {
    if optstring != [] && optstring[0] == '+' then Scan(true, args, optstring[1..], longs)
    else Scan(false, args, optstring, longs)
  }

  /** What is parsed already, in front of what the rest parses to. */
  function Before(each: seq<Parsed>, rest: seq<string>, o: Outcome): Outcome {
    Outcome(each + o.each, rest + o.rest)
  }

  lemma BeforeTwice(each: seq<Parsed>, rest: seq<string>, each': seq<Parsed>, rest': seq<string>, o: Outcome)
    ensures Before(each, rest, Before(each', rest', o)) == Before(each + each', rest + rest', o)
  {
    assert each + (each' + o.each) == each + each' + o.each;
    assert rest + (rest' + o.rest) == rest + rest' + o.rest;
  }

  /** The long-option branch of the loop of `getopt_each`. */
  method LongOption(args: seq<string>, i: nat, longs: seq<LongOpt>) returns (one: Parsed, i': nat)
    requires i < |args| && IsLong(args[i])
    ensures i < i' <= |args| && LongGroup(args[i..], longs) == Group([one], i' - i)
  {
    ghost var here := args[i..];
    assert here[0] == args[i] && (i + 1 < |args| ==> here[1] == args[i + 1]);
    var whole := args[i][2..];
    var (name, inline) := SplitOnce(whole);
    i' := i + 1;
    match LongNamed(longs, name)
    case Unknown =>
      one := Bad(Unrecognized(whole));
    case Several(names) =>
      one := Bad(Ambiguous(whole, names));
    case Found(spec) =>
      var arg := None;
      if spec.takesArg {
        if inline.Some? {
          arg := inline;
        } else if i' < |args| {
          arg := Some(args[i']);
          i' := i' + 1;
        } else {
          one := Bad(LongRequiresArgument(spec.name));
          return;
        }
      } else if inline.Some? {
        one := Bad(LongAllowsNoArgument(spec.name));
        return;
      }
      one := Good(Opt(if spec.short.Some? then spec.short.value else '\0', Some(spec.name), arg));
  }

  lemma SnocAssoc<T>(a: seq<T>, x: T, b: seq<T>)
    ensures a + ([x] + b) == a + [x] + b
  {
  }

  /** The inner loop of `getopt_each`, over the letters of one bundle. */
  method ShortOptions(letters: string, args: seq<string>, i: nat, opts: string)
    returns (each: seq<Parsed>, i': nat)
    requires i <= |args|
    ensures i <= i' <= |args|
    ensures Bundle(letters, if i < |args| then Some(args[i]) else None, opts) == Group(each, i' - i)
  {
    ghost var next := if i < |args| then Some(args[i]) else None;
    ghost var whole := Bundle(letters, next, opts);
    ghost var left := whole;
    each := [];
    i' := i;
    var ci := 0;
    assert letters[0..] == letters;
    while ci < |letters|
      invariant 0 <= ci <= |letters| && i <= i' <= |args|
      invariant i' > i ==> ci == |letters|
      invariant left == Bundle(letters[ci..], next, opts)
      invariant whole == Group(each + left.parsed, i' - i + left.used)
    {
      ghost var rest, before := letters[ci..], each;
      var c := letters[ci];
      ci := ci + 1;
      assert rest[0] == c && rest[1..] == letters[ci..];
      var wants := OptWantsArg(opts, c);
      var one: Parsed;
      if wants.None? {
        one := Bad(InvalidOption(c));
      } else if !wants.value {
        one := Good(Opt(c, None, None));
      } else if ci < |letters| {
        one := Good(Opt(c, None, Some(letters[ci..])));
        ci := |letters|;
      } else if i < |args| {
        one := Good(Opt(c, None, Some(args[i])));
        i' := i + 1;
      } else {
        one := Bad(RequiresArgument(c));
      }
      each := each + [one];
      left := Bundle(letters[ci..], next, opts);
      SnocAssoc(before, one, left.parsed);
    }
  }

  /** One turn of the loop of `getopt_each`; the end of the arguments stands for its `break`. */
  method ScanOne(stop: bool, args: seq<string>, i: nat, opts: string, longs: seq<LongOpt>,
                 each: seq<Parsed>, rest: seq<string>)
    returns (each': seq<Parsed>, rest': seq<string>, i': nat)
    requires i < |args|
    ensures i < i' <= |args|
    ensures Before(each, rest, Scan(stop, args[i..], opts, longs))
         == Before(each', rest', Scan(stop, args[i'..], opts, longs))
  {
    var a := args[i];
    if a == "--" || (stop && !IsLong(a) && !IsShort(a)) {
      RestParsed(stop, args, i, opts, longs, each, rest);
      return each, rest + (if a == "--" then args[i + 1..] else args[i..]), |args|;
    }
    if IsLong(a) {
      var one, next := LongOption(args, i, longs);
      GroupParsed(stop, args, i, next, opts, longs, [one], each, rest);
      return each + [one], rest, next;
    }
    if IsShort(a) {
      var some, next := ShortOptions(a[1..], args, i + 1, opts);
      GroupParsed(stop, args, i, next, opts, longs, some, each, rest);
      return each + some, rest, next;
    }
    OperandParsed(stop, args, i, opts, longs, each, rest);
    return each, rest + [a], i + 1;
  }

  /** The loop of `getopt_each`. */
  method ScanArgs(stop: bool, args: seq<string>, opts: string, longs: seq<LongOpt>)
    returns (each: seq<Parsed>, rest: seq<string>)
    ensures Outcome(each, rest) == Scan(stop, args, opts, longs)
  {
    each, rest := [], [];
    var i := 0;
    NothingBefore(args, Scan(stop, args, opts, longs));
    while i < |args|
      invariant 0 <= i <= |args|
      invariant Scan(stop, args, opts, longs) == Before(each, rest, Scan(stop, args[i..], opts, longs))
    {
      each, rest, i := ScanOne(stop, args, i, opts, longs, each, rest);
    }
    assert each + [] == each && rest + [] == rest;
  }

  /** `getopt_each`. */
  method GetoptEach(args: seq<string>, optstring: string, longs: seq<LongOpt>)
    returns (each: seq<Parsed>, rest: seq<string>)
    ensures Outcome(each, rest) == Each(args, optstring, longs)
  {
    var stop := optstring != [] && optstring[0] == '+';
    each, rest := ScanArgs(stop, args, if stop then optstring[1..] else optstring, longs);
  }

  lemma NothingBefore(args: seq<string>, o: Outcome)
    ensures args[0..] == args && Before([], [], o) == o
  {
    assert [] + o.each == o.each && [] + o.rest == o.rest;
  }

  lemma RestParsed(stop: bool, args: seq<string>, i: nat, opts: string, longs: seq<LongOpt>,
                   each: seq<Parsed>, rest: seq<string>)
    requires i < |args|
    requires args[i] == "--" || (stop && !IsLong(args[i]) && !IsShort(args[i]))
    ensures Before(each, rest, Scan(stop, args[i..], opts, longs))
         == Before(each, rest + (if args[i] == "--" then args[i + 1..] else args[i..]),
                   Scan(stop, args[|args|..], opts, longs))
  {
    var here := args[i..];
    assert here[0] == args[i] && here[1..] == args[i + 1..];
    var more := rest + (if args[i] == "--" then args[i + 1..] else args[i..]);
    assert more + [] == more;
  }

  lemma OperandParsed(stop: bool, args: seq<string>, i: nat, opts: string, longs: seq<LongOpt>,
                      each: seq<Parsed>, rest: seq<string>)
    requires i < |args| && !stop && !IsLong(args[i]) && !IsShort(args[i])
    ensures Before(each, rest, Scan(stop, args[i..], opts, longs))
         == Before(each, rest + [args[i]], Scan(stop, args[i + 1..], opts, longs))
  {
    var here := args[i..];
    assert here[0] == args[i] && here[1..] == args[i + 1..];
    var o := Scan(stop, args[i + 1..], opts, longs);
    BeforeTwice(each, rest, [], [args[i]], o);
    assert [] + o.each == o.each;
    assert each + [] == each;
  }

  lemma GroupParsed(stop: bool, args: seq<string>, i: nat, i': nat, opts: string, longs: seq<LongOpt>,
                    parsed: seq<Parsed>, each: seq<Parsed>, rest: seq<string>)
    requires i < i' <= |args| && args[i] != "--"
    requires IsLong(args[i]) ==> LongGroup(args[i..], longs) == Group(parsed, i' - i)
    requires IsLong(args[i]) || IsShort(args[i])
    requires !IsLong(args[i]) ==>
      Bundle(args[i][1..], if i + 1 < |args| then Some(args[i + 1]) else None, opts) == Group(parsed, i' - i - 1)
    ensures Before(each, rest, Scan(stop, args[i..], opts, longs))
         == Before(each + parsed, rest, Scan(stop, args[i'..], opts, longs))
  {
    var here := args[i..];
    assert here[0] == args[i] && here[i' - i..] == args[i'..];
    assert i + 1 < |args| ==> here[1] == args[i + 1];
    assert OptionGroup(here, opts, longs) == Group(parsed, i' - i);
    assert rest + [] == rest;
    BeforeTwice(each, rest, parsed, [], Scan(stop, args[i'..], opts, longs));
  }
}
