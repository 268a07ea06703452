/** Option parsing that permutes its arguments: options end up first, the other arguments last. */
module Getopt {
  import opened Wrappers

  datatype Ordering = RequireOrder | Permute | ReturnInOrder

  const NO_ARGUMENT: nat := 0
  const REQUIRED_ARGUMENT: nat := 1

  datatype LongOption = LongOption(name: string, hasArg: nat, flag: bool, val: int)

  // ---------- exchange ----------

  /** Two adjacent parts of a sequence exchanged. */
  function Rotated<T>(s: seq<T>, bottom: nat, middle: nat, top: nat): (r: seq<T>)
    requires bottom <= middle <= top <= |s|
    ensures |r| == |s|
  {
    s[..bottom] + s[middle..top] + s[bottom..middle] + s[top..]
  }

  /** Two parts of equal length swapped. */
  ghost predicate Swapped<T>(s: seq<T>, t: seq<T>, a: nat, b: nat, len: nat)
    requires a + len <= b && b + len <= |s|
  {
    && |t| == |s| && t[a..a + len] == s[b..b + len] && t[b..b + len] == s[a..a + len]
    && t[..a] == s[..a] && t[a + len..b] == s[a + len..b] && t[b + len..] == s[b + len..]
  }

  lemma SwapTop<T>(s: seq<T>, t: seq<T>, bottom: nat, middle: nat, top: nat)
    requires bottom < middle < top <= |s| && top - middle > middle - bottom
    requires Swapped(s, t, bottom, top - (middle - bottom), middle - bottom)
    ensures Rotated(t, bottom, middle, top - (middle - bottom)) == Rotated(s, bottom, middle, top)
  {
    var len := middle - bottom;
    var top' := top - len;
    assert s[middle..top] == s[middle..top'] + s[top'..top];
    assert t[top'..] == t[top'..top] + t[top..];
    assert t[bottom..middle] == s[top'..top] && t[top'..top] == s[bottom..middle];
    assert t[bottom + len..top'] == s[bottom + len..top'];
  }

  lemma SwapBottom<T>(s: seq<T>, t: seq<T>, bottom: nat, middle: nat, top: nat)
    requires bottom < middle < top <= |s| && top - middle <= middle - bottom
    requires Swapped(s, t, bottom, middle, top - middle)
    ensures Rotated(t, bottom + (top - middle), middle, top) == Rotated(s, bottom, middle, top)
  {
    var len := top - middle;
    assert t[..bottom + len] == t[..bottom] + t[bottom..bottom + len];
    assert s[bottom..middle] == s[bottom..bottom + len] + s[bottom + len..middle];
    assert t[middle..top] == s[bottom..bottom + len];
  }

  lemma NothingToRotate<T>(s: seq<T>, bottom: nat, middle: nat, top: nat)
    requires bottom <= middle <= top <= |s| && (top == middle || middle == bottom)
    ensures Rotated(s, bottom, middle, top) == s
  {
  }

  /** The inner loops of exchange. */
  method Swap(argv: array<string>, a: nat, b: nat, len: nat)
    requires a + len <= b && b + len <= argv.Length
    modifies argv
    ensures Swapped(old(argv[..]), argv[..], a, b, len)
  {
    hide Swapped;
    ghost var was := argv[..];
    for i := 0 to len
      invariant forall p :: a <= p < a + i ==> argv[p] == was[p - a + b]
      invariant forall p :: b <= p < b + i ==> argv[p] == was[p - b + a]
      invariant forall p :: 0 <= p < a || a + i <= p < b || b + i <= p < argv.Length ==> argv[p] == was[p]
    {
      var tem := argv[a + i];
      argv[a + i] := argv[b + i];
      argv[b + i] := tem;
    }
    SwappedWhen(was, argv[..], a, b, len);
  }

  lemma SwappedWhen<T>(s: seq<T>, t: seq<T>, a: nat, b: nat, len: nat)
    requires a + len <= b && b + len <= |s| == |t|
    requires forall p :: a <= p < a + len ==> t[p] == s[p - a + b]
    requires forall p :: b <= p < b + len ==> t[p] == s[p - b + a]
    requires forall p :: 0 <= p < a || a + len <= p < b || b + len <= p < |s| ==> t[p] == s[p]
    ensures Swapped(s, t, a, b, len)
  {
  }

  /** exchange: swaps the shorter part into place until nothing is left to swap. */
  method Exchange(argv: array<string>, firstNonopt: nat, lastNonopt: nat, optind: nat)
    requires firstNonopt <= lastNonopt <= optind <= argv.Length
    modifies argv
    ensures argv[..] == Rotated(old(argv[..]), firstNonopt, lastNonopt, optind)
  {
    hide Rotated, Swapped;
    var bottom: nat, middle: nat, top: nat := firstNonopt, lastNonopt, optind;
    while top > middle && middle > bottom
      invariant bottom <= middle <= top <= argv.Length
      invariant Rotated(argv[..], bottom, middle, top) == Rotated(old(argv[..]), firstNonopt, lastNonopt, optind)
      decreases top - bottom
    {
      ghost var before := argv[..];
      if top - middle > middle - bottom {
        var len := middle - bottom;
        Swap(argv, bottom, top - (middle - bottom), len);
        SwapTop(before, argv[..], bottom, middle, top);
        top := top - len;
      } else {
        var len := top - middle;
        Swap(argv, bottom, middle, len);
        SwapBottom(before, argv[..], bottom, middle, top);
        bottom := bottom + len;
      }
    }
    NothingToRotate(argv[..], bottom, middle, top);
  }

  /** A rotation only permutes. */
  lemma RotatedPermutes<T>(s: seq<T>, bottom: nat, middle: nat, top: nat)
    requires bottom <= middle <= top <= |s|
    ensures multiset(Rotated(s, bottom, middle, top)) == multiset(s)
  {
    assert s == s[..bottom] + s[bottom..middle] + s[middle..top] + s[top..];
  }

  // ---------- what an element is ----------

  function At(s: string, i: nat): char {
    if i < |s| then s[i] else '\0'
  }

  /** my_index. */
  function Index(s: string, c: char, from: nat): (i: Option<nat>)
    requires from <= |s|
    ensures i.Some? ==> from <= i.value < |s| && s[i.value] == c && forall k :: from <= k < i.value ==> s[k] != c
    ensures i.None? ==> forall k :: from <= k < |s| ==> s[k] != c
    decreases |s| - from
  {
    if from == |s| then None else if s[from] == c then Some(from) else Index(s, c, from + 1)
  }

  /** Not an option: it does not start with a dash, or is nothing else. */
  predicate NonOption(e: string) {
    |e| < 2 || e[0] != '-'
  }

  datatype Kind = Unknown | Plain | OptionalArgument | RequiredArgument

  /** What the option string says of a character. */
  function KindOf(optstring: string, c: char): Kind {
    var temp := Index(optstring, c, 0);
    if temp.None? || c == ':' then Unknown
    else if At(optstring, temp.value + 1) != ':' then Plain
    else if At(optstring, temp.value + 2) == ':' then OptionalArgument
    else RequiredArgument
  }

  /** The option string as the first call sees it, past the character that selects an ordering. */
  function PastOrdering(optstring: string): string {
    if At(optstring, 0) == '-' || At(optstring, 0) == '+' then optstring[1..] else optstring
  }

  lemma {:induction false} IndexLater(s: string, c: char, from: nat)
    requires 1 <= from <= |s|
    ensures Index(s, c, from)
         == match Index(s[1..], c, from - 1)
            case None => None
            case Some(i) => Some(i + 1)
    decreases |s| - from
  {
    if from < |s| && s[from] != c {
      IndexLater(s, c, from + 1);
    }
  }

  /** To the first call options are what they are to later ones, but for the character that selected the ordering. */
  lemma FirstCallAgrees(optstring: string, c: char)
    ensures var first := PastOrdering(optstring);
            if first == optstring || c != optstring[0] then KindOf(first, c) == KindOf(optstring, c)
            else KindOf(optstring, c) != Unknown && (KindOf(first, c) == Unknown <==> c !in optstring[1..])
  {
    if PastOrdering(optstring) != optstring && c != optstring[0] {
      IndexLater(optstring, c, 1);
    }
  }

  /** Whether the options left in an element end with one whose argument is the next element. */
  function ShortTakes(optstring: string, rest: string): bool {
    if rest == "" then false
    else match KindOf(optstring, rest[0])
      case OptionalArgument => false
      case RequiredArgument => |rest| == 1
      case _ => ShortTakes(optstring, rest[1..])
  }

  datatype Match = NotFound | Ambiguous | Found(index: nat)

  predicate Prefixes(key: string, name: string) {
    key <= name
  }

  /** The search for a long option from entry i on, given the first inexact match before and whether there were more. */
  function LookupFrom(longopts: seq<LongOption>, key: string, i: nat, found: Option<nat>, ambig: bool): Match
    requires i <= |longopts|
    decreases |longopts| - i
  {
    if i == |longopts| then if found.None? then NotFound else if ambig then Ambiguous else Found(found.value)
    else if !Prefixes(key, longopts[i].name) then LookupFrom(longopts, key, i + 1, found, ambig)
    else if |key| == |longopts[i].name| then Found(i)
    else if found.None? then LookupFrom(longopts, key, i + 1, Some(i), ambig)
    else LookupFrom(longopts, key, i + 1, found, true)
  }

  /** The entry has that name and is the first that does, or is the only one whose name starts so. */
  ghost predicate Chosen(longopts: seq<LongOption>, key: string, i: nat) {
    && i < |longopts| && Prefixes(key, longopts[i].name)
    && (|| (longopts[i].name == key && forall k :: 0 <= k < i ==> longopts[k].name != key)
        || (forall k :: 0 <= k < |longopts| && k != i ==> !Prefixes(key, longopts[k].name)))
  }

  /** No entry has that name, and several have names that start so. */
  ghost predicate Unclear(longopts: seq<LongOption>, key: string) {
    && (forall k :: 0 <= k < |longopts| ==> longopts[k].name != key)
    && (exists j, k :: 0 <= j < k < |longopts| && Prefixes(key, longopts[j].name) && Prefixes(key, longopts[k].name))
  }

  /** An exact name wins, the first one if there are more; else a prefix has to be of one name only. */
  lemma {:induction false} LookupMeans(longopts: seq<LongOption>, key: string, i: nat, found: Option<nat>, ambig: bool)
    requires i <= |longopts|
    requires found.Some? ==> found.value < i && Prefixes(key, longopts[found.value].name)
    requires forall k :: 0 <= k < i && Prefixes(key, longopts[k].name) ==>
               longopts[k].name != key && found.Some? && (k == found.value || ambig)
    requires ambig ==>
               exists j, k :: 0 <= j < k < i && Prefixes(key, longopts[j].name) && Prefixes(key, longopts[k].name)
    ensures var m := LookupFrom(longopts, key, i, found, ambig);
            && (m.NotFound? <==> forall k :: 0 <= k < |longopts| ==> !Prefixes(key, longopts[k].name))
            && (m.Found? ==> Chosen(longopts, key, m.index))
            && (m.Ambiguous? ==> Unclear(longopts, key))
    decreases |longopts| - i
  {
    hide Chosen, Unclear;
    if i == |longopts| {
      LookupEnds(longopts, key, found, ambig);
    } else {
      var name := longopts[i].name;
      if !Prefixes(key, name) {
        LookupMeans(longopts, key, i + 1, found, ambig);
      } else if |key| == |name| {
        assert key == name;
        ExactChosen(longopts, key, i);
      } else if found.None? {
        LookupMeans(longopts, key, i + 1, Some(i), ambig);
      } else {
        assert 0 <= found.value < i && Prefixes(key, longopts[found.value].name) && Prefixes(key, longopts[i].name);
        LookupMeans(longopts, key, i + 1, found, true);
      }
    }
  }

  lemma ExactChosen(longopts: seq<LongOption>, key: string, i: nat)
    requires i < |longopts| && longopts[i].name == key && forall k :: 0 <= k < i ==> longopts[k].name != key
    ensures Chosen(longopts, key, i)
  {
  }

  lemma LookupEnds(longopts: seq<LongOption>, key: string, found: Option<nat>, ambig: bool)
    requires found.Some? ==> found.value < |longopts| && Prefixes(key, longopts[found.value].name)
    requires forall k :: 0 <= k < |longopts| && Prefixes(key, longopts[k].name) ==>
               longopts[k].name != key && found.Some? && (k == found.value || ambig)
    requires ambig ==>
               exists j, k ::
                 0 <= j < k < |longopts| && Prefixes(key, longopts[j].name) && Prefixes(key, longopts[k].name)
    ensures found.None? ==> forall k :: 0 <= k < |longopts| ==> !Prefixes(key, longopts[k].name)
    ensures found.Some? ==> if ambig then Unclear(longopts, key) else Chosen(longopts, key, found.value)
  {
  }

  /** Where the name of a long option ends. */
  function NameEnd(rest: string): (n: nat)
    ensures n <= |rest| && (n < |rest| ==> rest[n] == '=')
  {
    var i := Index(rest, '=', 0);
    if i.Some? then i.value else |rest|
  }

  function LongTakes(longopts: seq<LongOption>, rest: string): bool {
    LookupMeans(longopts, rest[..NameEnd(rest)], 0, None, false);
    var m := LookupFrom(longopts, rest[..NameEnd(rest)], 0, None, false);
    m.Found? && NameEnd(rest) == |rest| && longopts[m.index].hasArg == REQUIRED_ARGUMENT
  }

  /** The options a program knows. */
  datatype Known = Known(optstring: string, longopts: Option<seq<LongOption>>)

  predicate IsLong(k: Known, e: string) {
    k.longopts.Some? && At(e, 1) == '-'
  }

  /** Whether an option element makes the element after it its argument. */
  predicate Takes(k: Known, e: string)
    requires !NonOption(e)
  {
    if IsLong(k, e) then LongTakes(k.longopts.value, e[2..]) else ShortTakes(k.optstring, e[1..])
  }

  // ---------- the partition, from left to right ----------

  /** How many elements an option at the front is made of. */
  function Width(k: Known, s: seq<string>): (n: nat)
    requires s != [] && !NonOption(s[0])
    ensures 1 <= n <= 2 && n <= |s|
  {
    if Takes(k, s[0]) && |s| > 1 then 2 else 1
  }

  /** The options with their arguments, in order, up to and with the element that ends them. */
  function Options(k: Known, s: seq<string>): seq<string> {
    if s == [] then []
    else if NonOption(s[0]) then Options(k, s[1..])
    else if s[0] == "--" then ["--"]
    else s[..Width(k, s)] + Options(k, s[Width(k, s)..])
  }

  /** All other elements, in order. */
  function Others(k: Known, s: seq<string>): seq<string> {
    if s == [] then []
    else if NonOption(s[0]) then [s[0]] + Others(k, s[1..])
    else if s[0] == "--" then s[1..]
    else Others(k, s[Width(k, s)..])
  }

  /** Nothing is lost and nothing appears. */
  lemma {:induction false} PartitionPermutes(k: Known, s: seq<string>)
    ensures multiset(Options(k, s) + Others(k, s)) == multiset(s)
  {
    hide Width, NonOption;
    if s != [] {
      if NonOption(s[0]) {
        PartitionPermutes(k, s[1..]);
        assert s == [s[0]] + s[1..];
      } else if s[0] == "--" {
        assert s == ["--"] + s[1..];
      } else {
        var n := Width(k, s);
        PartitionPermutes(k, s[n..]);
        assert s == s[..n] + s[n..];
      }
    }
  }

  // ---------- the scan ----------

  /** What has been scanned is parted into options before and after the others, which have kept their order. */
  ghost predicate PartedAt(k: Known, orig: seq<string>, a: seq<string>, first: nat, last: nat, ind: nat)
    requires 1 <= first <= last <= ind <= |a| == |orig|
  {
    && Options(k, orig[1..]) == a[1..first] + a[last..ind] + Options(k, orig[ind..])
    && Others(k, orig[1..]) == a[first..last] + Others(k, orig[ind..])
  }

  /** So what has been scanned, and what has not, make up the arguments. */
  lemma PartedPermutes(k: Known, orig: seq<string>, a: seq<string>, first: nat, last: nat, ind: nat)
    requires 1 <= first <= last <= ind <= |a| == |orig| && PartedAt(k, orig, a, first, last, ind)
    requires a[0] == orig[0] && a[ind..] == orig[ind..]
    ensures multiset(a) == multiset(orig)
  {
    hide Options, Others;
    PartitionPermutes(k, orig[1..]);
    PartitionPermutes(k, orig[ind..]);
    var options, others := Options(k, orig[ind..]), Others(k, orig[ind..]);
    Regroup(orig[1..], a[1..first], a[last..ind], options, a[first..last], others, orig[ind..]);
    Pieces(a, first, last, ind);
    SameTail(orig, a, a[1..first] + a[first..last] + a[last..ind] + a[ind..]);
  }

  lemma Pieces<T>(a: seq<T>, i: nat, j: nat, k: nat)
    requires 1 <= i <= j <= k <= |a|
    ensures a == [a[0]] + (a[1..i] + a[i..j] + a[j..k] + a[k..])
  {
  }

  lemma Regroup<T>(all: seq<T>, a: seq<T>, b: seq<T>, c: seq<T>, d: seq<T>, e: seq<T>, rest: seq<T>)
    requires multiset((a + b + c) + (d + e)) == multiset(all) && multiset(c + e) == multiset(rest)
    ensures multiset(a + d + b + rest) == multiset(all)
  {
  }

  lemma SameTail<T>(s: seq<T>, t: seq<T>, tail: seq<T>)
    requires s != [] && t == [s[0]] + tail && multiset(tail) == multiset(s[1..])
    ensures multiset(t) == multiset(s)
  {
    assert s == [s[0]] + s[1..];
  }

  lemma DonePermutes(k: Known, orig: seq<string>, a: seq<string>, ind: nat)
    requires orig != [] && ind <= |a|
    requires a[..ind] == [orig[0]] + Options(k, orig[1..]) && a[ind..] == Others(k, orig[1..])
    ensures multiset(a) == multiset(orig)
  {
    hide Options, Others;
    PartitionPermutes(k, orig[1..]);
    assert orig == [orig[0]] + orig[1..];
    assert a == [orig[0]] + (Options(k, orig[1..]) + Others(k, orig[1..]));
  }

  /** Exchanging puts the options in front and moves the others up to the next element. */
  lemma ExchangeParts(k: Known, orig: seq<string>, a: seq<string>, first: nat, last: nat, ind: nat)
    requires 1 <= first <= last <= ind <= |a| == |orig| && PartedAt(k, orig, a, first, last, ind)
    ensures PartedAt(k, orig, Rotated(a, first, last, ind), first + (ind - last), ind, ind)
    ensures Rotated(a, first, last, ind)[ind..] == a[ind..] && Rotated(a, first, last, ind)[0] == a[0]
    ensures Rotated(a, first, last, ind)[..first] == a[..first]
  {
    hide Options, Others;
    var b, f := Rotated(a, first, last, ind), first + (ind - last);
    assert b[1..f] == a[1..first] + a[last..ind];
    assert b[f..ind] == a[first..last];
    assert b[ind..ind] == [];
  }

  lemma NothingSkipped(k: Known, orig: seq<string>, a: seq<string>, first: nat, ind: nat)
    requires 1 <= first <= ind <= |a| == |orig| && PartedAt(k, orig, a, first, first, ind)
    ensures PartedAt(k, orig, a, ind, ind, ind)
  {
    hide Options, Others;
    assert a[1..ind] == a[1..first] + a[first..ind];
    assert a[first..first] == [] == a[ind..ind];
  }

  lemma SkipOne(k: Known, orig: seq<string>, a: seq<string>, first: nat, ind: nat)
    requires 1 <= first <= ind < |a| == |orig| && PartedAt(k, orig, a, first, ind, ind)
    requires a[ind] == orig[ind] && NonOption(a[ind])
    ensures PartedAt(k, orig, a, first, ind + 1, ind + 1)
  {
    hide NonOption, Width;
    assert orig[ind..][1..] == orig[ind + 1..];
    assert a[first..ind + 1] == a[first..ind] + [a[ind]];
    assert a[ind..ind] == [] == a[ind + 1..ind + 1];
  }

  /** An option element joins the options after the others. */
  lemma TakeOption(k: Known, orig: seq<string>, a: seq<string>, first: nat, last: nat, ind: nat)
    requires 1 <= first <= last <= ind < |a| == |orig| && PartedAt(k, orig, a, first, last, ind)
    requires a[ind..] == orig[ind..] && !NonOption(a[ind]) && a[ind] != "--"
    ensures var n := if Takes(k, a[ind]) && ind + 1 < |a| then 2 else 1; PartedAt(k, orig, a, first, last, ind + n)
  {
    hide NonOption, Takes;
    var s := orig[ind..];
    assert s[0] == orig[ind] == a[ind];
    var n := Width(k, s);
    assert s[n..] == orig[ind + n..];
    assert s[..n] == a[ind..ind + n];
    assert a[last..ind + n] == a[last..ind] + a[ind..ind + n];
  }

  /** The element that ends the options joins them, and everything after it is other. */
  lemma TakeEnd(k: Known, orig: seq<string>, a: seq<string>, first: nat, ind: nat)
    requires 1 <= first <= ind < |a| == |orig| && PartedAt(k, orig, a, first, ind, ind)
    requires a[ind..] == orig[ind..] && a[ind] == "--"
    ensures Options(k, orig[1..]) == a[1..first] + a[ind..ind + 1]
    ensures Others(k, orig[1..]) == a[first..ind] + a[ind + 1..]
  {
    hide Width;
    var s := orig[ind..];
    assert s[0] == "--" && s[1..] == orig[ind + 1..] == a[ind..][1..];
    assert a[ind..][1..] == a[ind + 1..];
    assert a[ind..ind] == [] && a[ind..ind + 1] == ["--"];
  }

  /** What a call returns: that there are no more options, or the code of one. */
  datatype Returned = End | Code(code: int)

  class Scanner {
    const known: Known
    const posixlyCorrect: bool
    var optind: nat
    var nextchar: Option<string>
    var firstNonopt: nat
    var lastNonopt: nat
    var ordering: Ordering
    var optarg: Option<string>
    var optopt: char
    /** The arguments as they were at the first call. */
    ghost var original: seq<string>

    constructor (known: Known, posixlyCorrect: bool)
      ensures optind == 0 && this.known == known && this.posixlyCorrect == posixlyCorrect
    {
      this.known, this.posixlyCorrect := known, posixlyCorrect;
      optind, nextchar, firstNonopt, lastNonopt := 0, None, 0, 0;
      ordering, optarg, optopt := Permute, None, '?';
      original := [];
    }

    /** The indices are in order and the elements from optind on have not been touched. */
    ghost predicate Indexed(a: seq<string>)
      reads this
    {
      && 1 <= firstNonopt <= lastNonopt <= optind <= |a| == |original|
      && a[0] == original[0] && a[optind..] == original[optind..]
    }

    /** In an option element, its remaining options decide what the element takes. */
    ghost predicate InElement(a: seq<string>)
      reads this
    {
      nextchar.Some? && nextchar.value != "" ==>
        && optind < |a| && !NonOption(a[optind]) && a[optind] != "--" && !IsLong(known, a[optind])
        && (ordering == Permute ==> Takes(known, a[optind]) == ShortTakes(known.optstring, nextchar.value))
    }

    ghost predicate Parted(a: seq<string>)
      requires Indexed(a)
      reads this
    {
      PartedAt(known, original, a, firstNonopt, lastNonopt, optind)
    }

    /** How far the scan has come; without permuting it leaves everything as it was. */
    ghost predicate Scanned(a: seq<string>)
      reads this
    {
      && Indexed(a)
      && if ordering == Permute then Parted(a) else a == original && firstNonopt == lastNonopt == 1
    }

    /** Between calls. */
    ghost predicate Valid(argv: array<string>)
      reads this, argv
    {
      Scanned(argv[..]) && InElement(argv[..])
    }

    /** _getopt_initialize. The first call alone uses the string returned; later calls use all of the option string. */
    method Initialize(argv: array<string>) returns (optstring: string)
      requires argv.Length >= 1
      modifies this`firstNonopt, this`lastNonopt, this`optind, this`nextchar, this`ordering, this`original
      ensures Valid(argv) && original == argv[..] && optind == 1 && nextchar == None
      ensures ordering == if At(known.optstring, 0) == '-' then ReturnInOrder
                          else if At(known.optstring, 0) == '+' || posixlyCorrect then RequireOrder else Permute
      ensures optstring == PastOrdering(known.optstring) && (ordering == Permute ==> optstring == known.optstring)
    {
      firstNonopt, lastNonopt, optind := 1, 1, 1;
      nextchar := None;
      ordering := if At(known.optstring, 0) == '-' then ReturnInOrder
                  else if At(known.optstring, 0) == '+' || posixlyCorrect then RequireOrder else Permute;
      original := argv[..];
      optstring := PastOrdering(known.optstring);
    }

    /** The element is done, and is one or two elements wide. */
    ghost predicate Finished(argv: array<string>, was: nat, takes: bool)
      reads this
    {
      && (nextchar == None || nextchar == Some(""))
      && optind == was + if takes && was + 1 < argv.Length then 2 else 1
    }

    /** The next short option of an element. */
    method DecodeShort(argv: array<string>, optstring: string) returns (code: char)
      requires optind < argv.Length && nextchar.Some? && nextchar.value != ""
      modifies this`optind, this`nextchar, this`optarg, this`optopt
      ensures Finished(argv, old(optind), ShortTakes(optstring, old(nextchar.value)))
           || (optind == old(optind) && nextchar == Some(old(nextchar.value)[1..]) && nextchar.value != ""
               && ShortTakes(optstring, nextchar.value) == ShortTakes(optstring, old(nextchar.value)))
      ensures var c, rest := old(nextchar.value)[0], old(nextchar.value)[1..];
              match KindOf(optstring, c)
              case Unknown => code == '?' && optopt == c
              case Plain => code == c
              case OptionalArgument => code == c && optarg == if rest != "" then Some(rest) else None
              case RequiredArgument =>
                if rest != "" then code == c && optarg == Some(rest)
                else if old(optind) + 1 < argv.Length then code == c && optarg == Some(argv[old(optind) + 1])
                else code == (if At(optstring, 0) == ':' then ':' else '?') && optopt == c
    {
      var c, rest := nextchar.value[0], nextchar.value[1..];
      nextchar := Some(rest);
      var temp := Index(optstring, c, 0);
      if rest == "" {
        optind := optind + 1;
      }
      if temp.None? || c == ':' {
        optopt := c;
        return '?';
      }
      code := c;
      if At(optstring, temp.value + 1) == ':' {
        if At(optstring, temp.value + 2) == ':' {
          if rest != "" {
            optarg := Some(rest);
            optind := optind + 1;
          } else {
            optarg := None;
          }
          nextchar := None;
        } else {
          if rest != "" {
            optarg := Some(rest);
            optind := optind + 1;
          } else if optind == argv.Length {
            optopt := c;
            code := if At(optstring, 0) == ':' then ':' else '?';
          } else {
            optarg := Some(argv[optind]);
            optind := optind + 1;
          }
          nextchar := None;
        }
      }
    }

    /** The loop over the table of long options. */
    method FindLong(longopts: seq<LongOption>, key: string) returns (m: Match)
      ensures m == LookupFrom(longopts, key, 0, None, false)
    {
      var found: Option<nat> := None;
      var ambig := false;
      var i: nat := 0;
      while i < |longopts|
        invariant i <= |longopts|
        invariant LookupFrom(longopts, key, 0, None, false) == LookupFrom(longopts, key, i, found, ambig)
      {
        if Prefixes(key, longopts[i].name) {
          if |key| == |longopts[i].name| {
            return Found(i);
          } else if found.None? {
            found := Some(i);
          } else {
            ambig := true;
          }
        }
        i := i + 1;
      }
      m := if found.None? then NotFound else if ambig then Ambiguous else Found(found.value);
    }

    /** A long option: its name up to an equals sign, its argument after that or in the next element. */
    method DecodeLong(argv: array<string>, optstring: string) returns (code: int, longind: Option<nat>)
      requires optind < argv.Length && !NonOption(argv[optind]) && IsLong(known, argv[optind])
      requires nextchar == Some(argv[optind][2..])
      modifies this`optind, this`nextchar, this`optarg
      ensures Finished(argv, old(optind), Takes(known, argv[old(optind)]))
      ensures var rest := argv[old(optind)][2..];
              var n := NameEnd(rest);
              var m := LookupFrom(known.longopts.value, rest[..n], 0, None, false);
              if !m.Found? then code == '?' as int && longind == None
              else if m.index >= |known.longopts.value| then false
              else
                var o := known.longopts.value[m.index];
                if n < |rest| && o.hasArg == NO_ARGUMENT then code == '?' as int && longind == None
                else if n == |rest| && o.hasArg == REQUIRED_ARGUMENT && old(optind) + 1 == argv.Length then
                  code == (if At(optstring, 0) == ':' then ':' else '?') as int && longind == None
                else
                  && longind == Some(m.index) && code == (if o.flag then 0 else o.val)
                  && optarg == if n < |rest| then Some(rest[n + 1..])
                               else if o.hasArg == REQUIRED_ARGUMENT then Some(argv[old(optind) + 1]) else old(optarg)
    {
      var longopts := known.longopts.value;
      var rest := nextchar.value;
      var nameend := NameEnd(rest);
      longind := None;
      var m := FindLong(longopts, rest[..nameend]);
      LookupMeans(longopts, rest[..nameend], 0, None, false);
      nextchar := Some("");
      optind := optind + 1;
      if m.Found? {
        var found := longopts[m.index];
        if nameend < |rest| {
          if found.hasArg != NO_ARGUMENT {
            optarg := Some(rest[nameend + 1..]);
          } else {
            return '?' as int, None;
          }
        } else if found.hasArg == REQUIRED_ARGUMENT {
          if optind < argv.Length {
            optarg := Some(argv[optind]);
            optind := optind + 1;
          } else {
            return (if At(optstring, 0) == ':' then ':' else '?') as int, None;
          }
        }
        longind := Some(m.index);
        code := if found.flag then 0 else found.val;
      } else {
        code := '?' as int;
      }
    }

    /** The permuting steps at an element boundary: options go before what was skipped, then more is skipped. */
    method Permuting(argv: array<string>)
      requires Indexed(argv[..]) && Parted(argv[..]) && argv.Length == |original|
      modifies this`optind, this`firstNonopt, this`lastNonopt, argv
      ensures Indexed(argv[..]) && Parted(argv[..]) && lastNonopt == optind >= old(optind)
      ensures optind == argv.Length || !NonOption(argv[optind])
    {
      hide PartedAt, NonOption, Rotated;
      if firstNonopt != lastNonopt && lastNonopt != optind {
        ExchangeParts(known, original, argv[..], firstNonopt, lastNonopt, optind);
        Exchange(argv, firstNonopt, lastNonopt, optind);
        firstNonopt := firstNonopt + (optind - lastNonopt);
        lastNonopt := optind;
      } else if lastNonopt != optind {
        NothingSkipped(known, original, argv[..], firstNonopt, optind);
        firstNonopt := optind;
      }
      lastNonopt := optind;
      while optind < argv.Length && NonOption(argv[optind])
        invariant Indexed(argv[..]) && Parted(argv[..]) && lastNonopt == optind >= old(optind)
        decreases argv.Length - optind
      {
        assert argv[..][optind..][0] == original[optind..][0];
        SkipOne(known, original, argv[..], firstNonopt, optind);
        assert argv[optind + 1..] == argv[optind..][1..] && original[optind + 1..] == original[optind..][1..];
        optind := optind + 1;
        lastNonopt := optind;
      }
    }

    /** At the end the options come first, then from optind on the others, both in their original order. */
    ghost predicate Done(a: seq<string>)
      reads this
    {
      && original != [] && optind <= |a|
      && a[..optind] == [original[0]] + Options(known, original[1..]) && a[optind..] == Others(known, original[1..])
    }

    /** The end of the options: the element -- and every one after it has been passed over. */
    method EndOptions(argv: array<string>)
      requires Indexed(argv[..]) && argv.Length == |original| && optind < argv.Length && argv[optind] == "--"
      requires if ordering == Permute then Parted(argv[..]) && lastNonopt == optind
               else argv[..] == original && firstNonopt == lastNonopt == 1
      modifies this`optind, this`firstNonopt, this`lastNonopt, argv
      ensures optind == lastNonopt == argv.Length && firstNonopt <= argv.Length
      ensures ordering == Permute ==> argv[..firstNonopt] == [original[0]] + Options(known, original[1..])
      ensures ordering == Permute ==> argv[firstNonopt..] == Others(known, original[1..])
      ensures ordering != Permute ==> argv[..] == original && firstNonopt == old(optind) + 1
    {
      hide PartedAt, Rotated;
      ghost var a, ind, first := argv[..], optind, firstNonopt;
      if ordering == Permute {
        TakeEnd(known, original, a, first, ind);
      }
      optind := optind + 1;
      if firstNonopt != lastNonopt && lastNonopt != optind {
        RotateEnd(a, first, ind);
        Exchange(argv, firstNonopt, lastNonopt, optind);
        firstNonopt := firstNonopt + (optind - lastNonopt);
        lastNonopt := optind;
      } else if firstNonopt == lastNonopt {
        firstNonopt := optind;
        if ordering == Permute {
          NoOthersYet(a, ind);
        }
      }
      lastNonopt := argv.Length;
      optind := argv.Length;
    }

    lemma RotateEnd(a: seq<string>, first: nat, ind: nat)
      requires 1 <= first <= ind < |a|
      ensures var b := Rotated(a, first, ind, ind + 1);
              && b[..first + 1] == [a[0]] + (a[1..first] + a[ind..ind + 1])
              && b[first + 1..] == a[first..ind] + a[ind + 1..]
    {
    }

    lemma NoOthersYet(a: seq<string>, ind: nat)
      requires 1 <= ind < |a|
      ensures a[..ind + 1] == [a[0]] + (a[1..ind] + a[ind..ind + 1]) && a[ind + 1..] == a[ind..ind] + a[ind + 1..]
    {
    }

    lemma AllScanned(a: seq<string>)
      requires Indexed(a) && Parted(a) && lastNonopt == optind == |a|
      ensures a[..firstNonopt] == [original[0]] + Options(known, original[1..])
      ensures a[firstNonopt..] == Others(known, original[1..])
    {
      assert original[optind..] == [];
      assert a[lastNonopt..optind] == [];
      assert a[..firstNonopt] == [a[0]] + a[1..firstNonopt];
    }

    /** Skips the dashes of an option element. */
    method StartElement(argv: array<string>)
      requires Indexed(argv[..]) && optind < argv.Length && !NonOption(argv[optind]) && argv[optind] != "--"
      modifies this`nextchar
      ensures nextchar.Some? && 0 < |nextchar.value| < |argv[optind]|
      ensures IsLong(known, argv[optind]) ==> nextchar == Some(argv[optind][2..])
      ensures !IsLong(known, argv[optind]) ==> Takes(known, argv[optind]) == ShortTakes(known.optstring, nextchar.value)
    {
      var e := argv[optind];
      nextchar := Some(if known.longopts.Some? && At(e, 1) == '-' then e[2..] else e[1..]);
      assert IsLong(known, e) && |e| == 2 ==> e == "--";
    }

    /** The decoding of the current element: all of it, or one option of several. */
    method Decode(argv: array<string>, optstring: string) returns (r: Returned, longind: Option<nat>)
      requires argv.Length == |original| && optind < argv.Length
      requires !NonOption(argv[optind]) && argv[optind] != "--" && nextchar.Some? && nextchar.value != ""
      requires if IsLong(known, argv[optind]) then nextchar == Some(argv[optind][2..])
               else ordering == Permute ==> Takes(known, argv[optind]) == ShortTakes(optstring, nextchar.value)
      requires Scanned(argv[..]) && (ordering == Permute ==> optstring == known.optstring)
      modifies this`optind, this`nextchar, this`optarg, this`optopt
      ensures r.Code? && Valid(argv)
      ensures || optind > old(optind)
              || (optind == old(optind) && nextchar.Some? && 0 < |nextchar.value| < old(|nextchar.value|))
    {
      hide PartedAt, Takes, NonOption, LongTakes, ShortTakes, KindOf, LookupFrom;
      ghost var was := optind;
      if ordering == Permute {
        TakeOption(known, original, argv[..], firstNonopt, lastNonopt, optind);
      }
      var code: int;
      longind := None;
      if known.longopts.Some? && At(argv[optind], 1) == '-' {
        code, longind := DecodeLong(argv, optstring);
      } else {
        var c := DecodeShort(argv, optstring);
        code := c as int;
      }
      r := Code(code);
      assert argv[..][optind..] == argv[..][was..][optind - was..];
      assert original[optind..] == original[was..][optind - was..];
    }

    /** The move to the next element: either there is none, or it is not an option, or its decoding can start. */
    method NextElement(argv: array<string>) returns (r: Option<Returned>)
      requires Valid(argv) && (nextchar == None || nextchar == Some("")) && optarg == None
      modifies this`optind, this`nextchar, this`firstNonopt, this`lastNonopt, this`optarg, argv
      ensures ordering != Permute ==> argv[..] == original
      ensures r != Some(End) ==> optind >= old(optind)
      ensures r.Some? && r.value != End ==> optind > old(optind)
      ensures r == None ==> Scanned(argv[..]) && nextchar.Some? && nextchar.value != "" && optind < argv.Length
      ensures r == None ==> !NonOption(argv[optind]) && argv[optind] != "--"
      ensures r == None && optind == old(optind) ==>
                argv[optind] == old(argv[optind]) && |nextchar.value| < |argv[optind]|
      ensures r == None && IsLong(known, argv[optind]) ==> nextchar == Some(argv[optind][2..])
      ensures r == None && !IsLong(known, argv[optind]) ==>
                Takes(known, argv[optind]) == ShortTakes(known.optstring, nextchar.value)
      ensures r.Some? && r.value != End ==> Valid(argv) && ordering == ReturnInOrder && r.value == Code(1)
      ensures r == Some(End) && ordering == Permute ==> Done(argv[..])
      ensures r == Some(End) ==> 0 < optind <= argv.Length
      ensures r == Some(End) && ordering != Permute && optind < argv.Length ==>
                (argv[optind - 1] == "--" || (ordering == RequireOrder && NonOption(argv[optind])))
    {
      hide PartedAt, Takes, NonOption;
      if ordering == Permute {
        Permuting(argv);
      }
      assert argv[optind..] == argv[..][optind..];
      if optind != argv.Length && argv[optind] == "--" {
        EndOptions(argv);
      } else if optind == argv.Length && ordering == Permute {
        AllScanned(argv[..]);
      }
      if optind == argv.Length {
        if firstNonopt != lastNonopt {
          optind := firstNonopt;
        }
        return Some(End);
      }
      if NonOption(argv[optind]) {
        if ordering == RequireOrder {
          return Some(End);
        }
        optarg := Some(argv[optind]);
        optind := optind + 1;
        assert argv[..][optind..] == argv[..][optind - 1..][1..] && original[optind..] == original[optind - 1..][1..];
        return Some(Code(1));
      }
      StartElement(argv);
      return None;
    }

    /** What is left to scan: elements, and characters of the current one. */
    ghost function CharactersLeft(argv: array<string>): nat
      reads this, argv
    {
      if nextchar.Some? && nextchar.value != "" then |nextchar.value|
      else if optind < argv.Length then |argv[optind]|
      else 0
    }

    /** One call of _getopt_internal. */
    method GetoptInternal(argv: array<string>) returns (r: Returned, longind: Option<nat>)
      requires if optind == 0 then argv.Length >= 1 else Valid(argv)
      modifies this, argv
      ensures original == if old(optind) == 0 then old(argv[..]) else old(original)
      ensures r != End ==> Valid(argv)
      ensures r != End && old(optind) > 0 ==>
                optind > old(optind) || (optind == old(optind) && CharactersLeft(argv) < old(CharactersLeft(argv)))
      ensures r == End ==> 0 < optind <= argv.Length
      ensures r == End && ordering == Permute ==> Done(argv[..])
      ensures ordering != Permute ==> argv[..] == original
      ensures multiset(argv[..]) == multiset(original)
      ensures r == End && ordering != Permute && optind < argv.Length ==>
                (argv[optind - 1] == "--" || (ordering == RequireOrder && NonOption(argv[optind])))
    {
      hide PartedAt, Takes, NonOption, Done;
      optarg, longind := None, None;
      var optstring := known.optstring;
      if optind == 0 {
        optstring := Initialize(argv);
      }
      if nextchar == None || nextchar == Some("") {
        var s := NextElement(argv);
        if s.Some? {
          Permuted(argv[..], s.value == End);
          return s.value, None;
        }
      }
      r, longind := Decode(argv, optstring);
      Permuted(argv[..], false);
    }

    /** Between calls and at the end, the arguments are those of the first call. */
    lemma Permuted(a: seq<string>, end: bool)
      requires if end then ordering == Permute ==> Done(a) else Scanned(a)
      requires ordering != Permute ==> a == original
      ensures multiset(a) == multiset(original)
    {
      hide PartedAt;
      if ordering == Permute {
        if end {
          DonePermutes(known, original, a, optind);
        } else {
          PartedPermutes(known, original, a, firstNonopt, lastNonopt, optind);
        }
      }
    }

    /** A caller's loop, until there are no more options: these come out in front, in order, and the others behind. */
    method ScanAll(argv: array<string>)
      requires optind == 0 && argv.Length >= 1
      modifies this, argv
      ensures original == old(argv[..]) && 0 < optind <= argv.Length
      ensures multiset(argv[..]) == multiset(old(argv[..]))
      ensures ordering == Permute ==> argv[..optind] == [original[0]] + Options(known, original[1..])
      ensures ordering == Permute ==> argv[optind..] == Others(known, original[1..])
      ensures ordering != Permute ==> argv[..] == original
    {
      hide PartedAt, Takes, NonOption, Scanned, InElement, Indexed, Options, Others;
      var longind;
      var r;
      r, longind := GetoptInternal(argv);
      if r != End {
        IndexBound(argv);
      }
      while r != End
        invariant original == old(argv[..])
        invariant r != End ==> Valid(argv) && optind > 0
        invariant r == End ==> 0 < optind <= argv.Length && (ordering == Permute ==> Done(argv[..]))
        invariant ordering != Permute ==> argv[..] == original
        invariant multiset(argv[..]) == multiset(original)
        decreases if r == End then 0 else 1, argv.Length - optind, CharactersLeft(argv)
      {
        IndexBound(argv);
        r, longind := GetoptInternal(argv);
        if r != End {
          IndexBound(argv);
        }
      }
    }

    lemma IndexBound(argv: array<string>)
      requires Valid(argv)
      ensures 0 < optind <= argv.Length
    {
    }
  }
}
