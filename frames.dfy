/** Frame ordering for the animation library (`Player.load_animations`).
    An action's directory listing is given as the file names it holds; each
    name is cut at its first dot, the stems are sorted by their integer
    value, and ".png" is put back on. */
module Frames {
  import opened Results

  const Png: string := ".png"

  /** `name.split('.')[0]`: the longest prefix of `name` without a dot. */
  function Stem(name: string): (r: string)
    ensures r <= name && '.' !in r
    ensures r == name || name[|r|] == '.'
  {
    if name == [] || name[0] == '.' then [] else [name[0]] + Stem(name[1..])
  }

  /** Cutting the stem of a frame name gives back the stem it was built from. */
  lemma {:induction false} StemOfPng(stem: string)
    requires '.' !in stem
    ensures Stem(stem + Png) == stem
  {
    if stem != [] {
      assert (stem + Png)[1..] == stem[1..] + Png;
      StemOfPng(stem[1..]);
    }
  }

  predicate IsDigit(c: char) { '0' <= c <= '9' }

  predicate AllDigits(s: string) { forall i :: 0 <= i < |s| ==> IsDigit(s[i]) }

  /** The value of a string of decimal digits, most significant first. */
  function DigitsValue(s: string): (r: nat)
    requires AllDigits(s)
    decreases |s|
  {
    if s == [] then 0 else 10 * DigitsValue(s[..|s| - 1]) + (s[|s| - 1] as int - '0' as int)
  }

  /** Python's `int` on a stem: an optional sign and at least one ASCII digit. */
  function ParseInt(s: string): (r: Option<int>)
  {
    if |s| > 0 && AllDigits(s) then Some(DigitsValue(s))
    else if |s| > 1 && (s[0] == '-' || s[0] == '+') && AllDigits(s[1..]) then
      var magnitude: int := DigitsValue(s[1..]);
      Some(if s[0] == '-' then -magnitude else magnitude)
    else None
  }

  /** The decimal numeral of `n`, as the frame files are named. */
  function Decimal(n: nat): (r: string)
    ensures |r| > 0 && AllDigits(r)
  {
    if n < 10 then ['0' + n as char] else Decimal(n / 10) + ['0' + (n % 10) as char]
  }

  /** Parsing a numeral gives back its number. */
  lemma {:induction false} ParseDecimal(n: nat)
    ensures ParseInt(Decimal(n)) == Some(n)
  {
    DecimalValue(n);
  }

  lemma {:induction false} DecimalValue(n: nat)
    ensures DigitsValue(Decimal(n)) == n
  {
    if n >= 10 {
      var d := Decimal(n / 10);
      assert (d + ['0' + (n % 10) as char])[..|d|] == d;
      DecimalValue(n / 10);
    }
  }

  /** Every stem has an integer value. */
  predicate Numeric(stems: seq<string>) { forall t :: t in stems ==> ParseInt(t).Some? }

  /** The sort key: the stem's integer value (only consulted once every stem has one). */
  function Key(stem: string): (r: int)
  {
    match ParseInt(stem)
    case Some(v) => v
    case None => 0
  }

  predicate SortedBy<T>(key: T -> int, s: seq<T>)
  {
    forall i, j :: 0 <= i < j < |s| ==> key(s[i]) <= key(s[j])
  }

  /** Puts `x` before the first element whose key is not smaller, so that it
      stays ahead of the elements of equal key. */
  function Insert<T>(key: T -> int, x: T, s: seq<T>): (r: seq<T>)
  {
    if s == [] || key(x) <= key(s[0]) then [x] + s
    else [s[0]] + Insert(key, x, s[1..])
  }

  /** Inserting into a sorted sequence adds one element and keeps it sorted. */
  lemma {:induction false} InsertSpec<T>(key: T -> int, x: T, s: seq<T>)
    requires SortedBy(key, s)
    ensures multiset(Insert(key, x, s)) == multiset(s) + multiset{x}
    ensures SortedBy(key, Insert(key, x, s))
  {
    if s != [] && key(x) > key(s[0]) {
      var rest := Insert(key, x, s[1..]);
      InsertSpec(key, x, s[1..]);
      assert s == [s[0]] + s[1..];
      KeysAbove(key, key(s[0]), x, s[1..], rest);
    }
  }

  /** A lower bound on the keys of `s` and of `x` bounds every key of a
      rearrangement of `s` with `x` added. */
  lemma KeysAbove<T>(key: T -> int, b: int, x: T, s: seq<T>, r: seq<T>)
    requires b <= key(x) && forall k :: 0 <= k < |s| ==> b <= key(s[k])
    requires multiset(r) == multiset(s) + multiset{x}
    ensures forall j :: 0 <= j < |r| ==> b <= key(r[j])
  {
    forall j | 0 <= j < |r| ensures b <= key(r[j]) {
      var t := r[j];
      assert t in multiset(r);
      if t != x {
        assert t in multiset(s);
        var k :| 0 <= k < |s| && s[k] == t;
      }
    }
  }

  /** The elements in ascending order of key (the order `list.sort(key=...)` produces). */
  function Sort<T>(key: T -> int, s: seq<T>): (r: seq<T>)
  {
    if s == [] then [] else Insert(key, s[0], Sort(key, s[1..]))
  }

  /** Sorting gives a permutation of the input, in ascending order of key. */
  lemma {:induction false} SortSpec<T>(key: T -> int, s: seq<T>)
    ensures multiset(Sort(key, s)) == multiset(s)
    ensures SortedBy(key, Sort(key, s))
  {
    if s != [] {
      SortSpec(key, s[1..]);
      InsertSpec(key, s[0], Sort(key, s[1..]));
      assert s == [s[0]] + s[1..];
    }
  }

  function Stems(files: seq<string>): (r: seq<string>)
    ensures |r| == |files| && forall i :: 0 <= i < |files| ==> r[i] == Stem(files[i])
  {
    seq(|files|, i requires 0 <= i < |files| => Stem(files[i]))
  }

  function WithPng(stems: seq<string>): (r: seq<string>)
    ensures |r| == |stems| && forall i :: 0 <= i < |stems| ==> r[i] == stems[i] + Png
  {
    seq(|stems|, i requires 0 <= i < |stems| => stems[i] + Png)
  }

  /** The first stem, in listing order, that is not an integer: `sort(key=int)`
      computes the keys in order and raises on the first failure. */
  function FirstNonInteger(stems: seq<string>): (r: Option<string>)
  {
    if stems == [] then None
    else if ParseInt(stems[0]).None? then Some(stems[0])
    else FirstNonInteger(stems[1..])
  }

  /** The search finds a stem that is not an integer exactly when there is one. */
  lemma {:induction false} FirstNonIntegerSpec(stems: seq<string>)
    ensures FirstNonInteger(stems).None? <==> Numeric(stems)
    ensures FirstNonInteger(stems).Some? ==>
      FirstNonInteger(stems).value in stems && ParseInt(FirstNonInteger(stems).value).None?
    ensures FirstNonInteger(stems).Some? ==>
      exists k :: 0 <= k < |stems| && stems[k] == FirstNonInteger(stems).value && Numeric(stems[..k])
  {
    if stems != [] {
      FirstNonIntegerSpec(stems[1..]);
      assert stems == [stems[0]] + stems[1..];
      if ParseInt(stems[0]).None? {
        assert stems[..0] == [];
      } else if FirstNonInteger(stems[1..]).Some? {
        var k :| 0 <= k < |stems[1..]| && stems[1..][k] == FirstNonInteger(stems[1..]).value && Numeric(stems[1..][..k]);
        assert stems[..k + 1] == [stems[0]] + stems[1..][..k];
      }
    }
  }

  /** The ordered frame list of one action, or the stem that `int` rejects. */
  function OrderFrames(files: seq<string>): (r: Result<seq<string>, string>)
  {
    var stems := Stems(files);
    match FirstNonInteger(stems)
    case Some(bad) => Err(bad)
    case None => Ok(WithPng(Sort(Key, stems)))
  }

  /** The frame list is the listing's stems, each once, in ascending order of
      value, each with ".png" appended; it fails exactly when a stem is not an
      integer, naming such a stem. */
  lemma OrderFramesSpec(files: seq<string>)
    ensures OrderFrames(files).Ok? <==> Numeric(Stems(files))
    ensures OrderFrames(files).Err? ==>
      OrderFrames(files).error in Stems(files) && ParseInt(OrderFrames(files).error).None?
    ensures OrderFrames(files).Ok? ==>
      var r := OrderFrames(files).value;
      && |r| == |files|
      && (forall i :: 0 <= i < |r| ==> r[i] == Stem(r[i]) + Png)
      && multiset(Stems(r)) == multiset(Stems(files))
      && Numeric(Stems(r)) && SortedBy(Key, Stems(r))
  {
    var stems := Stems(files);
    FirstNonIntegerSpec(stems);
    if Numeric(stems) {
      var sorted := Sort(Key, stems);
      SortSpec(Key, stems);
      forall t | t in sorted ensures '.' !in t && ParseInt(t).Some? {
        assert t in multiset(stems);
        var k :| 0 <= k < |stems| && stems[k] == t;
      }
      StemsOfWithPng(sorted);
      assert Numeric(sorted);
    }
  }

  /** Cutting the stems of dot-free stems with ".png" appended gives the stems back. */
  lemma StemsOfWithPng(stems: seq<string>)
    requires forall t :: t in stems ==> '.' !in t
    ensures Stems(WithPng(stems)) == stems
  {
    var r := WithPng(stems);
    forall i | 0 <= i < |r| ensures Stem(r[i]) == stems[i] {
      StemOfPng(stems[i]);
    }
  }

  /** What `glob` lists in an action's directory: a missing directory lists nothing. */
  function FilesIn(listing: map<string, seq<string>>, action: string): (r: seq<string>)
  {
    if action in listing then listing[action] else []
  }

  /** The animation library built so far, and the stem that stopped the build, if any. */
  datatype Loaded = Loaded(library: map<string, seq<string>>, error: Option<string>)

  /** The loop of `load_animations` over the first `n` of `names`, in order,
      with `order` as the frame ordering: each action's ordered frames are
      stored under its name, until a listing that does not order stops it. */
  function LoadFirst(order: seq<string> -> Result<seq<string>, string>, listing: map<string, seq<string>>,
                     names: seq<string>, n: nat): (r: Loaded)
    requires n <= |names|
  {
    if n == 0 then Loaded(map[], None)
    else
      var before := LoadFirst(order, listing, names, n - 1);
      if before.error.Some? then before
      else
        match order(FilesIn(listing, names[n - 1]))
        case Ok(frames) => Loaded(before.library[names[n - 1] := frames], None)
        case Err(stem) => Loaded(before.library, Some(stem))
  }

  /** `load_animations` over `names`. */
  function LoadLibrary(listing: map<string, seq<string>>, names: seq<string>): (r: Loaded)
  {
    LoadFirst(OrderFrames, listing, names, |names|)
  }

  /** Once the build has stopped, the later actions change nothing. */
  lemma {:induction false} LoadStops(order: seq<string> -> Result<seq<string>, string>, listing: map<string, seq<string>>,
                                     names: seq<string>, k: nat, n: nat)
    requires k <= n <= |names| && LoadFirst(order, listing, names, k).error.Some?
    ensures LoadFirst(order, listing, names, n) == LoadFirst(order, listing, names, k)
    decreases n
  {
    if k < n {
      LoadStops(order, listing, names, k, n - 1);
    }
  }

  /** The build succeeds exactly when every action's listing orders, and then
      the library holds exactly those actions, each with its ordered frames;
      a failure is the failure of some action's listing. */
  lemma {:induction false} LoadFirstSpec(order: seq<string> -> Result<seq<string>, string>, listing: map<string, seq<string>>,
                                         names: seq<string>, n: nat)
    requires n <= |names|
    ensures var l := LoadFirst(order, listing, names, n);
      l.error.None? <==> forall k :: 0 <= k < n ==> order(FilesIn(listing, names[k])).Ok?
    ensures var l := LoadFirst(order, listing, names, n);
      l.error.None? ==>
        && (forall a :: a in l.library <==> a in names[..n])
        && forall k :: 0 <= k < n ==> l.library[names[k]] == order(FilesIn(listing, names[k])).value
    ensures var l := LoadFirst(order, listing, names, n);
      l.error.Some? ==> exists k :: 0 <= k < n && order(FilesIn(listing, names[k])) == Err(l.error.value)
    decreases n
  {
    if n > 0 {
      LoadFirstSpec(order, listing, names, n - 1);
      assert names[..n] == names[..n - 1] + [names[n - 1]];
    }
  }

  /** The library of the game's actions: every listing orders exactly when the
      build succeeds, and then each action maps to its ordered frames. */
  lemma LoadLibrarySpec(listing: map<string, seq<string>>, names: seq<string>)
    ensures var l := LoadLibrary(listing, names);
      l.error.None? <==> forall a :: a in names ==> OrderFrames(FilesIn(listing, a)).Ok?
    ensures var l := LoadLibrary(listing, names);
      l.error.None? ==>
        && (forall a :: a in l.library <==> a in names)
        && forall a :: a in names ==> l.library[a] == OrderFrames(FilesIn(listing, a)).value
    ensures var l := LoadLibrary(listing, names);
      l.error.Some? ==> exists a :: a in names && OrderFrames(FilesIn(listing, a)) == Err(l.error.value)
  {
    LoadFirstSpec(OrderFrames, listing, names, |names|);
    assert names[..|names|] == names;
  }

  /** The example of numeric, not lexicographic, order. */
  lemma OrderFramesExample()
    ensures OrderFrames(["2.png", "10.png", "1.png"]) == Ok(["1.png", "2.png", "10.png"])
  {
    var files := ["2.png", "10.png", "1.png"];
    StemsExample();
    NumericExample();
    SortExample();
    WithPngExample();
    assert OrderFrames(files) == Ok(WithPng(Sort(Key, ["2", "10", "1"])));
  }

  lemma StemsExample()
    ensures Stems(["2.png", "10.png", "1.png"]) == ["2", "10", "1"]
  {
    assert Stem("2.png") == "2";
    assert Stem("10.png") == "10";
    assert Stem("1.png") == "1";
  }

  lemma NumericExample()
    ensures FirstNonInteger(["2", "10", "1"]) == None
  {
    KeyExample();
  }

  lemma WithPngExample()
    ensures WithPng(["1", "2", "10"]) == ["1.png", "2.png", "10.png"]
  {
    var r := WithPng(["1", "2", "10"]);
    assert r[0] == "1.png";
    assert r[1] == "2.png";
    assert r[2] == "10.png";
  }

  lemma KeyExample()
    ensures ParseInt("1") == Some(1) && ParseInt("2") == Some(2) && ParseInt("10") == Some(10)
  {
    assert "10"[..1] == "1";
  }

  lemma SortExample()
    ensures Sort(Key, ["2", "10", "1"]) == ["1", "2", "10"]
  {
    KeyExample();
    SortTailExample();
    InsertExample();
    assert ["2", "10", "1"][1..] == ["10", "1"];
  }

  lemma SortTailExample()
    ensures Sort(Key, ["10", "1"]) == ["1", "10"]
  {
    KeyExample();
    assert ["10", "1"][1..] == ["1"];
    assert Sort(Key, ["1"]) == ["1"] by { assert ["1"][1..] == []; }
    assert Insert(Key, "10", ["1"]) == ["1", "10"] by { assert ["1"][1..] == []; }
  }

  lemma InsertExample()
    ensures Insert(Key, "2", ["1", "10"]) == ["1", "2", "10"]
  {
    KeyExample();
    assert ["1", "10"][1..] == ["10"];
    assert Insert(Key, "2", ["10"]) == ["2", "10"];
  }
}
