/** The part of `load_port` (tools/build_data.py:48-98) that reads the ignore list and
    registers large files.  The directory walk itself is not modelled: its result is the
    sequence of `Entry` values it meets, in the order it meets them.  `LoadPort` runs the
    loops of the source over that sequence; `ScanAll` gives what they compute as a fold, and
    the lemmas characterise the result independently of the fold. */
module Discovery {
  import opened Text
  import opened PartNames

  /** A file of this many bytes or more is kept out of the repository (tools/build_data.py:31). */
  const LARGEST_FILE: nat := 1024 * 1024 * 90

  /** A directory entry met by the walk: the directory it is in, its own name, whether it is
      a regular file, and its size in bytes. */
  datatype Entry = Entry(dir: string, name: string, isFile: bool, size: nat)

  /** `str(file_name)`: the entry's path. */
  function Path(e: Entry): string {
    e.dir + "/" + e.name
  }

  /** The walk looks at a regular file unless its name is one of the skipped names or starts
      with "._" (tools/build_data.py:65-75). */
  predicate Considered(e: Entry) {
    e.isFile && e.name !in [".", "..", ".git", ".DS_Store", ".gitignore"] && !StartsWith(e.name, "._")
  }

  function Id(s: string): string {
    s
  }

  /** No string occurs twice. */
  ghost predicate Distinct(xs: seq<string>) {
    forall x :: multiset(xs)[x] <= 1
  }

  /* ---------------------------------------------------------------- the ignore list */

  /** The entries of the `.gitignore` file: each line stripped, blank lines and comment lines
      dropped, the rest kept in file order (tools/build_data.py:52-57). */
  function ReadIgnores(lines: seq<string>): seq<string>
  {
    if lines == [] then []
    else
      var rest := ReadIgnores(lines[..|lines| - 1]);
      var line := Strip(lines[|lines| - 1]);
      if line == "" || StartsWith(line, "#") then rest else rest + [line]
  }

  /** An entry of the ignore list is a stripped line of the file that is neither blank nor a
      comment, and every such line is an entry. */
  lemma {:induction false} ReadIgnoresMembers(lines: seq<string>, x: string)
    ensures x in ReadIgnores(lines) <==>
      x != "" && !StartsWith(x, "#") && exists i :: 0 <= i < |lines| && Strip(lines[i]) == x
  {
    if lines != [] {
      var init := lines[..|lines| - 1];
      var last := Strip(lines[|lines| - 1]);
      ReadIgnoresMembers(init, x);
      assert x in ReadIgnores(lines) <==>
        x in ReadIgnores(init) || (x == last && last != "" && !StartsWith(last, "#"));
      SomeMapsTo(lines, init, Strip, x);
    }
  }

  /** Some element of `xs` maps to `x` under `f` exactly when one of all elements but the
      last does, or the last does. */
  lemma SomeMapsTo<T, U>(xs: seq<T>, init: seq<T>, f: T -> U, x: U)
    requires xs != [] && init == xs[..|xs| - 1]
    ensures (exists i :: 0 <= i < |xs| && f(xs[i]) == x) <==>
      (exists i :: 0 <= i < |init| && f(init[i]) == x) || f(xs[|xs| - 1]) == x
  {
    if exists i :: 0 <= i < |init| && f(init[i]) == x {
      var i :| 0 <= i < |init| && f(init[i]) == x;
      assert xs[i] == init[i];
    }
    if exists i :: 0 <= i < |xs| && f(xs[i]) == x {
      var i :| 0 <= i < |xs| && f(xs[i]) == x;
      if i < |init| {
        assert init[i] == xs[i];
      }
    }
  }

  /** `if x not in git_ignores: git_ignores.append(x)`. */
  function AddIgnore(ignores: seq<string>, x: string): (r: seq<string>)
    ensures forall y :: y in r <==> y in ignores || y == x
    ensures forall y :: y != x ==> multiset(r)[y] == multiset(ignores)[y]
    ensures multiset(r)[x] == if x in ignores then multiset(ignores)[x] else 1
  {
    if x in ignores then ignores else ignores + [x]
  }

  /* ---------------------------------------------------------------- the registry */

  /** The `large_files` dict: its keys in insertion order, and the part list of each key. */
  datatype Registry = Registry(order: seq<string>, lists: map<string, seq<string>>)

  const EMPTY: Registry := Registry([], map[])

  /** What `load_port` guarantees of the dict it returns: the order lists each key once and
      no other; each list is in string order; every listed path is a part of its key.  That
      the order is the order in which the walk first met each key is `ScanOrder`. */
  ghost predicate WellFormed(r: Registry) {
    KeysOnce(r) && ListsSorted(r) && ListsHoldParts(r)
  }

  ghost predicate KeysOnce(r: Registry) {
    (forall i, j :: 0 <= i < j < |r.order| ==> r.order[i] != r.order[j]) &&
    (forall k :: k in r.lists <==> k in r.order)
  }

  ghost predicate ListsSorted(r: Registry) {
    forall k :: k in r.lists ==> SortedBy(r.lists[k], Id)
  }

  ghost predicate ListsHoldParts(r: Registry) {
    forall k, p :: k in r.lists && p in r.lists[k] ==> PartBase(p) == Some(k)
  }

  /** `large_files.setdefault(key, [])`: a new key goes last with an empty list. */
  function SetDefault(r: Registry, key: string): (after: Registry)
    ensures key in after.lists && after.lists.Keys == r.lists.Keys + {key}
    ensures forall k :: k in r.lists ==> after.lists[k] == r.lists[k]
    ensures key in r.lists ==> after.order == r.order
    ensures key !in r.lists ==> after.order == r.order + [key] && after.lists[key] == []
  {
    if key in r.lists then r else Registry(r.order + [key], r.lists[key := []])
  }

  /** `large_files.setdefault(key, []).append(part)` followed by `large_files[key].sort()`. */
  function AddPart(r: Registry, key: string, part: string): (after: Registry)
    ensures after.order == SetDefault(r, key).order
    ensures key in after.lists && after.lists.Keys == r.lists.Keys + {key}
    ensures forall k :: k in r.lists && k != key ==> after.lists[k] == r.lists[k]
    ensures SortedBy(after.lists[key], Id)
    ensures multiset(after.lists[key]) ==
      multiset(if key in r.lists then r.lists[key] else []) + multiset{part}
  {
    var r1 := SetDefault(r, key);
    Registry(r1.order, r1.lists[key := SortBy(r1.lists[key] + [part], Id)])
  }

  lemma SetDefaultWellFormed(r: Registry, key: string)
    requires WellFormed(r)
    ensures WellFormed(SetDefault(r, key))
  {
  }

  lemma AddPartWellFormed(r: Registry, key: string, part: string)
    requires WellFormed(r) && PartBase(part) == Some(key)
    ensures WellFormed(AddPart(r, key, part))
  {
    var r1 := SetDefault(r, key);
    SetDefaultWellFormed(r, key);
    var l := SortBy(r1.lists[key] + [part], Id);
    var r2 := AddPart(r, key, part);
    assert r2 == Registry(r1.order, r1.lists[key := l]);
    assert KeysOnce(r2);
    forall p | p in l
      ensures PartBase(p) == Some(key)
    {
      assert p in multiset(l);
      assert p in multiset(r1.lists[key] + [part]);
      assert p in r1.lists[key] || p == part;
    }
    ReplaceList(r1, key, l);
  }

  /** Replacing the list of a registered key by a sorted list of its parts keeps the lists
      sorted and holding parts. */
  lemma ReplaceList(r: Registry, key: string, l: seq<string>)
    requires ListsSorted(r) && ListsHoldParts(r) && key in r.lists
    requires SortedBy(l, Id) && forall p :: p in l ==> PartBase(p) == Some(key)
    ensures ListsSorted(r.(lists := r.lists[key := l]))
    ensures ListsHoldParts(r.(lists := r.lists[key := l]))
  {
  }

  /* ---------------------------------------------------------------- one entry */

  /** The state of the scan loop: `git_ignores` and `large_files`. */
  datatype Scan = Scan(ignores: seq<string>, registry: Registry)

  /** The body of the scan loop for one entry (tools/build_data.py:65-96).  A name holding
      ".part." adds its own base name to the ignore list and, when its path ends in
      `.part.<digits>`, joins the part list of its base path; any other file of at least
      `LARGEST_FILE` bytes adds its name to the ignore list and its path to the registry. */
  function Visit(st: Scan, e: Entry): Scan {
    if !Considered(e) then st
    else if HasInfix(e.name, ".part.") then
      PartInfixSplits(e.name);
      var ignores := AddIgnore(st.ignores, RSplit2(e.name).value.0);
      match PartBase(Path(e))
      case Some(base) => Scan(ignores, AddPart(st.registry, base, Path(e)))
      case None => Scan(ignores, st.registry)
    else if e.size < LARGEST_FILE then st
    else Scan(AddIgnore(st.ignores, e.name), SetDefault(st.registry, Path(e)))
  }

  /** The scan loop over the entries met so far. */
  function ScanAll(st: Scan, es: seq<Entry>): Scan {
    if es == [] then st else Visit(ScanAll(st, es[..|es| - 1]), es[|es| - 1])
  }

  /** What `load_port` computes from the `.gitignore` lines (`None` when the file does not
      exist) and the entries of the walk: the ignore list sorted case-insensitively, and the
      large-file registry. */
  function LoadPortResult(ignoreFile: Option<seq<string>>, es: seq<Entry>): (seq<string>, Registry) {
    var ignores := if ignoreFile.Some? then ReadIgnores(ignoreFile.value) else [];
    var st := ScanAll(Scan(ignores, EMPTY), es);
    (SortBy(st.ignores, Fold), st.registry)
  }

  /* ---------------------------------------------------------------- the loops */

  /** `load_port` from the read of `.gitignore` to the sort of the ignore list. */
  method LoadPort(ignoreFile: Option<seq<string>>, es: seq<Entry>)
    returns (ignores: seq<string>, registry: Registry)
    ensures (ignores, registry) == LoadPortResult(ignoreFile, es)
  {
    ignores := [];
    registry := EMPTY;
    if ignoreFile.Some? {
      ignores := ReadIgnoreFile(ignoreFile.value);
    }
    ignores, registry := ScanEntries(ignores, es);
    ignores := SortBy(ignores, Fold);
  }

  /** The loop of the directory walk over the entries it meets, from an empty dict. */
  method ScanEntries(fromFile: seq<string>, es: seq<Entry>)
    returns (ignores: seq<string>, registry: Registry)
    ensures Scan(ignores, registry) == ScanAll(Scan(fromFile, EMPTY), es)
  {
    ignores, registry := fromFile, EMPTY;
    var i := 0;
    while i < |es|
      invariant 0 <= i <= |es|
      invariant Scan(ignores, registry) == ScanAll(Scan(fromFile, EMPTY), es[..i])
    {
      assert es[..i + 1][..i] == es[..i];
      ignores, registry := VisitEntry(ignores, registry, es[i]);
      i := i + 1;
    }
    assert es[..i] == es;
  }

  /** The loop over the lines of `.gitignore` (tools/build_data.py:50-55). */
  method ReadIgnoreFile(lines: seq<string>) returns (ignores: seq<string>)
    ensures ignores == ReadIgnores(lines)
  {
    ignores := [];
    var i := 0;
    while i < |lines|
      invariant 0 <= i <= |lines|
      invariant ignores == ReadIgnores(lines[..i])
    {
      assert lines[..i + 1][..i] == lines[..i];
      var line := Strip(lines[i]);
      if line != "" && !StartsWith(line, "#") {
        ignores := ignores + [line];
      }
      i := i + 1;
    }
    assert lines[..i] == lines;
  }

  /** The body of the scan loop for one entry, on the list and the dictionary. */
  method VisitEntry(ignores: seq<string>, registry: Registry, e: Entry)
    returns (ignoresAfter: seq<string>, registryAfter: Registry)
    ensures Scan(ignoresAfter, registryAfter) == Visit(Scan(ignores, registry), e)
  {
    ignoresAfter, registryAfter := ignores, registry;
    var path := Path(e);
    if Considered(e) {
      if HasInfix(e.name, ".part.") {
        PartInfixSplits(e.name);
        var nameBase := RSplit2(e.name).value.0;
        if nameBase !in ignoresAfter {
          ignoresAfter := ignoresAfter + [nameBase];
        }
        assert ignoresAfter == AddIgnore(ignores, nameBase);
        RSplit2Prefix(e.dir + "/", e.name);
        var (largeFileName, partCheck, partNumber) := RSplit2(path).value;
        if partCheck == "part" && IsDigits(partNumber) {
          assert PartBase(path) == Some(largeFileName);
          if largeFileName !in registryAfter.lists {
            registryAfter := Registry(registryAfter.order + [largeFileName], registryAfter.lists[largeFileName := []]);
          }
          assert registryAfter == SetDefault(registry, largeFileName);
          var parts := registryAfter.lists[largeFileName] + [path];
          registryAfter := registryAfter.(lists := registryAfter.lists[largeFileName := SortBy(parts, Id)]);
          assert registryAfter == AddPart(registry, largeFileName, path);
        } else {
          assert PartBase(path) == None;
        }
      } else if e.size >= LARGEST_FILE {
        if e.name !in ignoresAfter {
          ignoresAfter := ignoresAfter + [e.name];
        }
        assert ignoresAfter == AddIgnore(ignores, e.name);
        if path !in registryAfter.lists {
          registryAfter := Registry(registryAfter.order + [path], registryAfter.lists[path := []]);
        }
        assert registryAfter == SetDefault(registry, path);
      }
    }
  }

  /* ---------------------------------------------------------------- what the scan yields */

  /** The registry key an entry contributes, judged from the entry alone: a part file gives
      its base path, a large non-part file its own path. */
  function RegisteredAs(e: Entry): Option<string> {
    if !Considered(e) then None
    else if HasInfix(e.name, ".part.") then PartBase(Path(e))
    else if e.size >= LARGEST_FILE then Some(Path(e))
    else None
  }

  /** The ignore entry an entry contributes, judged from the entry alone. */
  function IgnoredAs(e: Entry): Option<string> {
    if !Considered(e) then None
    else if HasInfix(e.name, ".part.") then
      PartInfixSplits(e.name);
      Some(RSplit2(e.name).value.0)
    else if e.size >= LARGEST_FILE then Some(e.name)
    else None
  }

  /** The entry is a part file of `key`. */
  predicate IsPartOf(e: Entry, key: string) {
    Considered(e) && HasInfix(e.name, ".part.") && PartBase(Path(e)) == Some(key)
  }

  /** The paths of the part files among `es` whose base path is `key`, in walk order. */
  function PartsOf(es: seq<Entry>, key: string): seq<string>
  {
    if es == [] then []
    else
      var e := es[|es| - 1];
      var rest := PartsOf(es[..|es| - 1], key);
      if IsPartOf(e, key) then rest + [Path(e)] else rest
  }

  /** One entry adds to the registry exactly the key it contributes. */
  lemma VisitKeys(st: Scan, e: Entry, k: string)
    ensures k in Visit(st, e).registry.lists <==> k in st.registry.lists || RegisteredAs(e) == Some(k)
  {
  }

  /** One entry appends to the dict's order exactly the key it contributes, when that key is
      new. */
  lemma VisitOrder(st: Scan, e: Entry)
    ensures Visit(st, e).registry.order ==
      match RegisteredAs(e)
      case Some(k) => if k in st.registry.lists then st.registry.order else st.registry.order + [k]
      case None => st.registry.order
  {
  }

  /** One entry adds its own path to the list of `k` when it is a part file of `k`, and
      changes that list in no other way. */
  lemma VisitLists(st: Scan, e: Entry, k: string)
    requires k in Visit(st, e).registry.lists
    ensures var before := if k in st.registry.lists then st.registry.lists[k] else [];
      multiset(Visit(st, e).registry.lists[k]) ==
        multiset(before) + if IsPartOf(e, k) then multiset{Path(e)} else multiset{}
  {
  }

  /** One entry adds the ignore entry it contributes, when it is not there yet. */
  lemma VisitIgnores(st: Scan, e: Entry, x: string)
    ensures var after := Visit(st, e).ignores;
      (x in after <==> x in st.ignores || IgnoredAs(e) == Some(x)) &&
      multiset(after)[x] == if x !in st.ignores && IgnoredAs(e) == Some(x) then 1 else multiset(st.ignores)[x]
  {
  }

  /** The scan keeps the registry well formed. */
  lemma {:induction false} ScanWellFormed(st: Scan, es: seq<Entry>)
    requires WellFormed(st.registry)
    ensures WellFormed(ScanAll(st, es).registry)
  {
    if es != [] {
      ScanWellFormed(st, es[..|es| - 1]);
      var prev := ScanAll(st, es[..|es| - 1]);
      var e := es[|es| - 1];
      if Considered(e) {
        if HasInfix(e.name, ".part.") {
          if PartBase(Path(e)).Some? {
            AddPartWellFormed(prev.registry, PartBase(Path(e)).value, Path(e));
          }
        } else if e.size >= LARGEST_FILE {
          SetDefaultWellFormed(prev.registry, Path(e));
        }
      }
    }
  }
  /** The registry keys the entries contribute, each once, in the order of the entry that
      first contributes it. */
  function FirstSeen(es: seq<Entry>): seq<string>
  {
    if es == [] then []
    else
      var ks := FirstSeen(es[..|es| - 1]);
      match RegisteredAs(es[|es| - 1])
      case Some(k) => if k in ks then ks else ks + [k]
      case None => ks
  }

  /** The dict's insertion order, which `check_large_files` follows, is the order in which
      the walk first contributes each key. */
  lemma {:induction false} ScanOrder(es: seq<Entry>, ignores: seq<string>)
    ensures ScanAll(Scan(ignores, EMPTY), es).registry.order == FirstSeen(es)
  {
    if es != [] {
      var init := es[..|es| - 1];
      ScanOrder(init, ignores);
      ScanWellFormed(Scan(ignores, EMPTY), init);
      VisitOrder(ScanAll(Scan(ignores, EMPTY), init), es[|es| - 1]);
    }
  }


  /** A name holding ".part." is never registered as a large file itself: the only key its
      entry can add is its base path, which is shorter than its own path. */
  lemma PartFileNotRegistered(st: Scan, e: Entry)
    requires HasInfix(e.name, ".part.")
    ensures var after := Visit(st, e).registry;
      forall k :: k in after.lists && k !in st.registry.lists ==> Some(k) == PartBase(Path(e))
    ensures Path(e) in Visit(st, e).registry.lists ==> Path(e) in st.registry.lists
  {
    if PartBase(Path(e)).Some? {
      PartBaseShape(Path(e));
    }
  }

  /** A file without ".part." in its name is registered exactly when it has at least
      `LARGEST_FILE` bytes; a list it finds already there is left as it was. */
  lemma LargeFileRegistered(st: Scan, e: Entry)
    requires Considered(e) && !HasInfix(e.name, ".part.")
    ensures var after := Visit(st, e).registry;
      (Path(e) in after.lists <==> Path(e) in st.registry.lists || e.size >= LARGEST_FILE) &&
      (Path(e) !in st.registry.lists && e.size >= LARGEST_FILE ==> after.lists[Path(e)] == []) &&
      (forall k :: k in st.registry.lists ==> k in after.lists && after.lists[k] == st.registry.lists[k])
  {
  }

  /** The keys of the registry are exactly the keys the entries contribute. */
  lemma {:induction false} ScanKeys(es: seq<Entry>, ignores: seq<string>, k: string)
    ensures k in ScanAll(Scan(ignores, EMPTY), es).registry.lists <==>
      exists i :: 0 <= i < |es| && RegisteredAs(es[i]) == Some(k)
  {
    if es != [] {
      var init := es[..|es| - 1];
      ScanKeys(init, ignores, k);
      VisitKeys(ScanAll(Scan(ignores, EMPTY), init), es[|es| - 1], k);
      if exists i :: 0 <= i < |init| && RegisteredAs(init[i]) == Some(k) {
        var i :| 0 <= i < |init| && RegisteredAs(init[i]) == Some(k);
        assert es[i] == init[i];
      }
      if exists i :: 0 <= i < |es| && RegisteredAs(es[i]) == Some(k) {
        var i :| 0 <= i < |es| && RegisteredAs(es[i]) == Some(k);
        if i < |init| {
          assert init[i] == es[i];
        }
      }
    }
  }

  /** Each part list holds exactly the part files of its key that the walk met. */
  lemma {:induction false} ScanLists(es: seq<Entry>, ignores: seq<string>, k: string)
    ensures var r := ScanAll(Scan(ignores, EMPTY), es).registry;
      k in r.lists ==> multiset(r.lists[k]) == multiset(PartsOf(es, k))
  {
    if es != [] {
      var init := es[..|es| - 1];
      var prev := ScanAll(Scan(ignores, EMPTY), init);
      ScanLists(init, ignores, k);
      if k in ScanAll(Scan(ignores, EMPTY), es).registry.lists {
        VisitLists(prev, es[|es| - 1], k);
        if k !in prev.registry.lists {
          NoKeyNoParts(init, ignores, k);
        }
      }
    }
  }

  /** A key the scan has not registered has no part file among the entries so far. */
  lemma {:induction false} NoKeyNoParts(es: seq<Entry>, ignores: seq<string>, k: string)
    requires k !in ScanAll(Scan(ignores, EMPTY), es).registry.lists
    ensures PartsOf(es, k) == []
  {
    if es != [] {
      var init := es[..|es| - 1];
      var prev := ScanAll(Scan(ignores, EMPTY), init);
      VisitKeys(prev, es[|es| - 1], k);
      NoKeyNoParts(init, ignores, k);
    }
  }

  /** The scan adds an ignore entry only when it is not there yet, and only the entries the
      walk contributes: lines of the `.gitignore` file keep their count. */
  lemma {:induction false} ScanIgnores(st: Scan, es: seq<Entry>, x: string)
    ensures var after := ScanAll(st, es).ignores;
      (x in st.ignores ==> multiset(after)[x] == multiset(st.ignores)[x]) &&
      (x !in st.ignores ==> multiset(after)[x] <= 1) &&
      (x in after <==> x in st.ignores || exists i :: 0 <= i < |es| && IgnoredAs(es[i]) == Some(x))
  {
    if es != [] {
      var init := es[..|es| - 1];
      ScanIgnores(st, init, x);
      VisitIgnores(ScanAll(st, init), es[|es| - 1], x);
      if exists i :: 0 <= i < |init| && IgnoredAs(init[i]) == Some(x) {
        var i :| 0 <= i < |init| && IgnoredAs(init[i]) == Some(x);
        assert es[i] == init[i];
      }
      if exists i :: 0 <= i < |es| && IgnoredAs(es[i]) == Some(x) {
        var i :| 0 <= i < |es| && IgnoredAs(es[i]) == Some(x);
        if i < |init| {
          assert init[i] == es[i];
        }
      }
    }
  }

  /** What `load_port` returns, characterised: a well-formed registry whose keys are the keys
      the entries contribute, in the order the walk first contributes them, and whose lists
      hold their part files; an ignore list sorted case-insensitively holding the `.gitignore`
      entries and the names the entries contribute, with no entry added twice, so that it is
      free of repeats when the file was. */
  lemma LoadPortCorrect(ignoreFile: Option<seq<string>>, es: seq<Entry>)
    ensures var (ignores, r) := LoadPortResult(ignoreFile, es);
      var fromFile := if ignoreFile.Some? then ReadIgnores(ignoreFile.value) else [];
      WellFormed(r) && r.order == FirstSeen(es) &&
      (forall k :: k in r.lists <==> exists i :: 0 <= i < |es| && RegisteredAs(es[i]) == Some(k)) &&
      (forall k :: k in r.lists ==> multiset(r.lists[k]) == multiset(PartsOf(es, k))) &&
      SortedBy(ignores, Fold) &&
      (forall x :: x in ignores <==> x in fromFile || exists i :: 0 <= i < |es| && IgnoredAs(es[i]) == Some(x)) &&
      (Distinct(fromFile) ==> Distinct(ignores))
  {
    var fromFile := if ignoreFile.Some? then ReadIgnores(ignoreFile.value) else [];
    var st := ScanAll(Scan(fromFile, EMPTY), es);
    ScanWellFormed(Scan(fromFile, EMPTY), es);
    ScanOrder(es, fromFile);
    forall k
      ensures k in st.registry.lists <==> exists i :: 0 <= i < |es| && RegisteredAs(es[i]) == Some(k)
      ensures k in st.registry.lists ==> multiset(st.registry.lists[k]) == multiset(PartsOf(es, k))
    {
      ScanKeys(es, fromFile, k);
      ScanLists(es, fromFile, k);
    }
    var ignores := SortBy(st.ignores, Fold);
    forall x
      ensures x in ignores <==> x in fromFile || exists i :: 0 <= i < |es| && IgnoredAs(es[i]) == Some(x)
      ensures Distinct(fromFile) ==> multiset(ignores)[x] <= 1
    {
      ScanIgnores(Scan(fromFile, EMPTY), es, x);
      assert x in ignores <==> x in multiset(st.ignores);
    }
  }
}
