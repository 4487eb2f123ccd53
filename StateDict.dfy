/**
 * `copy_state_dict`: when a checkpoint's first key starts with `module`
 * (the parameters were saved from a data-parallel wrapper), every key loses
 * its first seven characters; otherwise the dictionary is handed back as it
 * is. Parameter values are opaque.
 */
module StateDict {
  import opened Wrappers
  import opened OrderedMaps

  /** `list(state_dict.keys())[0]` on an empty dictionary. */
  datatype CopyError = IndexError

  /** `k[7:]`: the key without its first seven characters; a shorter key
      becomes empty. */
  function Rename(k: string): (r: string)
    ensures |r| == if |k| >= 7 then |k| - 7 else 0
    ensures r == k[|k| - |r|..]
  {
    if |k| >= 7 then k[7..] else ""
  }

  /** The renamed key of every entry, in order, duplicates included. */
  function RenamedNames<V>(d: Dict<string, V>): (ns: seq<string>)
    ensures |ns| == |d|
    ensures forall i :: 0 <= i < |d| ==> ns[i] == Rename(d[i].0)
  {
    seq(|d|, i requires 0 <= i < |d| => Rename(d[i].0))
  }

  /** The dictionary the loop builds: each entry in turn stored under its
      renamed key in a fresh ordered dictionary. */
  function Renamed<V>(d: Dict<string, V>): Dict<string, V> {
    if d == [] then []
    else Put(Renamed(d[..|d| - 1]), Rename(d[|d| - 1].0), d[|d| - 1].1)
  }

  /** `copy_state_dict`. */
  method CopyStateDict<V>(d: Dict<string, V>) returns (r: Result<Dict<string, V>, CopyError>)
    ensures d == [] ==> r == Err(IndexError)
    ensures d != [] && !("module" <= d[0].0) ==> r == Ok(d)
    ensures d != [] && "module" <= d[0].0 ==> r == Ok(Renamed(d))
  {
    if |d| == 0 {
      return Err(IndexError);
    }
    if "module" <= d[0].0 {
      var out: Dict<string, V> := [];
      for i := 0 to |d|
        invariant out == Renamed(d[..i])
      {
        assert d[..i + 1][..i] == d[..i];
        out := Put(out, Rename(d[i].0), d[i].1);
      }
      assert d[..|d|] == d;
      return Ok(out);
    } else {
      return Ok(d);
    }
  }

  // ---------------------------------------------------------------------
  // Reference definitions

  /** The elements of `s` in order of first occurrence. */
  function Dedup<T(==)>(s: seq<T>): seq<T> {
    if s == [] then []
    else
      var p := Dedup(s[..|s| - 1]);
      if s[|s| - 1] in p then p else p + [s[|s| - 1]]
  }

  ghost predicate Distinct<T>(s: seq<T>) {
    forall i, j :: 0 <= i < j < |s| ==> s[i] != s[j]
  }

  /** The value of the last entry whose key renames to `n`. */
  function LastWith<V>(d: Dict<string, V>, n: string): Option<V> {
    if d == [] then None
    else if Rename(d[|d| - 1].0) == n then Some(d[|d| - 1].1)
    else LastWith(d[..|d| - 1], n)
  }

  // ---------------------------------------------------------------------
  // Properties of the renaming

  /** The keys are the renamed keys in order of first occurrence. */
  lemma {:induction false} RenamedKeys<V>(d: Dict<string, V>)
    ensures Keys(Renamed(d)) == Dedup(RenamedNames(d))
  {
    if d != [] {
      var q := d[..|d| - 1];
      RenamedKeys(q);
      assert RenamedNames(d)[..|d| - 1] == RenamedNames(q);
    }
  }

  /** Each renamed key holds the value of the last entry that renames to it;
      a name no key renames to is absent. */
  lemma {:induction false} RenamedGet<V>(d: Dict<string, V>, n: string)
    ensures Get(Renamed(d), n) == LastWith(d, n)
  {
    if d != [] {
      var q := d[..|d| - 1];
      RenamedGet(q, n);
      GetPut(Renamed(q), Rename(d[|d| - 1].0), d[|d| - 1].1, n);
    }
  }

  /** The result is a well-formed dictionary: no key twice. */
  lemma {:induction false} RenamedDistinct<V>(d: Dict<string, V>)
    ensures DistinctKeys(Renamed(d))
  {
    if d != [] {
      RenamedDistinct(d[..|d| - 1]);
    }
  }

  lemma {:induction false} DedupMembers<T>(s: seq<T>, x: T)
    ensures x in Dedup(s) <==> x in s
  {
    if s != [] {
      var q := s[..|s| - 1];
      DedupMembers(q, x);
      assert s == q + [s[|s| - 1]];
    }
  }

  /** Deduplication never lengthens, and keeps the length exactly when there
      was nothing to remove. */
  lemma {:induction false} DedupLength<T>(s: seq<T>)
    ensures |Dedup(s)| <= |s|
    ensures |Dedup(s)| == |s| <==> Distinct(s)
  {
    if s != [] {
      var q := s[..|s| - 1];
      var x := s[|s| - 1];
      DedupLength(q);
      DedupMembers(q, x);
      if Distinct(s) {
        assert Distinct(q);
        assert x !in q by {
          forall i | 0 <= i < |q| ensures q[i] != x { assert s[i] != s[|s| - 1]; }
        }
      }
      if |Dedup(s)| == |s| {
        assert x !in Dedup(q) && |Dedup(q)| == |q|;
        forall i, j | 0 <= i < j < |s| ensures s[i] != s[j] {
          if j < |s| - 1 {
            assert s[i] == q[i] && s[j] == q[j];
          } else {
            assert s[i] == q[i];
          }
        }
      }
    }
  }

  /** At most as many entries come out as went in, and exactly as many when
      no two keys rename alike. */
  lemma RenamedSize<V>(d: Dict<string, V>)
    ensures |Renamed(d)| <= |d|
    ensures |Renamed(d)| == |d| <==> Distinct(RenamedNames(d))
  {
    RenamedKeys(d);
    DedupLength(RenamedNames(d));
  }

  /** One more entry is one more assignment. */
  lemma RenamedSnoc<V>(d: Dict<string, V>, e: (string, V))
    ensures Renamed(d + [e]) == Put(Renamed(d), Rename(e.0), e.1)
  {
    assert (d + [e])[..|d|] == d;
  }

  /** An entry whose renamed key is new lands at the end. */
  lemma RenamedAppend<V>(d: Dict<string, V>, e: (string, V))
    requires forall j :: 0 <= j < |Renamed(d)| ==> Renamed(d)[j].0 != Rename(e.0)
    ensures Renamed(d + [e]) == Renamed(d) + [(Rename(e.0), e.1)]
  {
    RenamedSnoc(d, e);
    PutNew(Renamed(d), Rename(e.0), e.1);
  }

  lemma RenameModuleW() ensures Rename("module.w") == "w" {
    assert "module.w"[7..] == "w";
  }

  lemma RenameModuleB() ensures Rename("module.b") == "b" {
    assert "module.b"[7..] == "b";
  }

  lemma RenameBackbone() ensures Rename("backbone.x") == "e.x" {
    assert "backbone.x"[7..] == "e.x";
  }

  lemma RenameModuleFc() ensures Rename("module.fc") == "fc" {
    assert "module.fc"[7..] == "fc";
  }

  lemma RenameLayerFc() ensures Rename("layer1.fc") == "fc" {
    assert "layer1.fc"[7..] == "fc";
  }

  /** Two parameters of a data-parallel checkpoint lose their `module.`
      prefix; so does a later key without it, which loses its first seven
      characters just the same. The values are carried over untouched. */
  lemma CopyExample<V>(w: V, b: V, x: V)
    ensures Renamed([("module.w", w), ("module.b", b), ("backbone.x", x)])
         == [("w", w), ("b", b), ("e.x", x)]
  {
    var e1, e2, e3 := ("module.w", w), ("module.b", b), ("backbone.x", x);
    CopyExamplePrefix(w, b);
    RenameBackbone();
    assert [e1, e2] + [e3] == [e1, e2, e3];
    RenamedAppend([e1, e2], e3);
  }

  lemma CopyExamplePrefix<V>(w: V, b: V)
    ensures Renamed([("module.w", w), ("module.b", b)]) == [("w", w), ("b", b)]
  {
    var e1, e2 := ("module.w", w), ("module.b", b);
    RenameModuleW();
    RenameModuleB();
    assert [] + [e1] == [e1];
    RenamedAppend([], e1);
    assert [e1] + [e2] == [e1, e2];
    RenamedAppend([e1], e2);
  }

  /** Two keys that rename alike collapse into one entry holding the later
      value, at the position of the earlier. */
  lemma CollisionExample<V>(first: V, second: V)
    ensures Renamed([("module.fc", first), ("layer1.fc", second)]) == [("fc", second)]
  {
    var e1, e2 := ("module.fc", first), ("layer1.fc", second);
    RenameModuleFc();
    RenameLayerFc();
    assert [] + [e1] == [e1];
    RenamedAppend([], e1);
    assert Renamed([e1]) == [("fc", first)];
    assert [e1] + [e2] == [e1, e2];
    RenamedSnoc([e1], e2);
    PutExisting([("fc", first)], "fc", second, 0);
  }
}
