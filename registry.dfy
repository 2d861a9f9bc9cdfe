/** The part of HKEY_CLASSES_ROOT the service reads and writes, and the
    reconcile rule of `check_and_correct` (src/main.rs:212-246) stated on it.
    The store maps a subkey path to its values, by value name; the unnamed
    default value has the name "". */
module Registry {
  import opened Text
  import opened Executable

  /** Rust's `u32`. */
  newtype u32 = x: int | 0 <= x < 0x1_0000_0000

  /** A registry value as the program's typed reads see it: a string value
      (read as `String`), a REG_DWORD (read as `u32`), or any other type,
      which neither read accepts. */
  datatype RegValue = Sz(text: string) | Dword(number: u32) | OtherType

  type Store = map<string, map<string, RegValue>>

  /** The name of a key's default value, the one holding the launch command. */
  const DefaultValue := ""

  /** `Firefox{key_type}-{install_id}\shell\open\command` (src/main.rs:213). */
  function LaunchPath(keyType: string, installId: string): string {
    KeyPrefix + keyType + "-" + installId + "\\shell\\open\\command"
  }

  /** Opening the key at `path` succeeds exactly when it is in the store;
      when it does, its default value is a string, so the `unwrap()` of
      `get_value("")` (src/main.rs:216) does not panic. */
  predicate LaunchReadable(store: Store, path: string) {
    path in store ==> DefaultValue in store[path] && store[path][DefaultValue].Sz?
  }

  /** The launch command stored at `path`. */
  function Launch(store: Store, path: string): string
    requires path in store && LaunchReadable(store, path)
  {
    store[path][DefaultValue].text
  }

  /** The launch entry at `path` is absent or already holds `options`. */
  predicate Satisfied(store: Store, path: string, options: string) {
    path in store ==> LaunchReadable(store, path) && Contains(Launch(store, path), options)
  }

  /** The corrected launch command (src/main.rs:224-225). */
  function Rewrite(launch: string, options: string): (r: string)
    ensures Contains(r, options)
  {
    ContainsSuffix(ExtractExecutable(launch) + " ", options);
    ExtractExecutable(launch) + " " + options
  }

  /** One reconcile of the launch entry at `path`: absent keys are skipped,
      a launch command holding `options` is left alone, any other is
      replaced by `Rewrite`. */
  function Reconciled(store: Store, path: string, options: string): (r: Store)
    requires LaunchReadable(store, path)
    ensures r.Keys == store.Keys
    ensures forall p :: p in store && p != path ==> r[p] == store[p]
    ensures path in store ==> && r[path].Keys == store[path].Keys
                              && forall v :: v in store[path] && v != DefaultValue ==> r[path][v] == store[path][v]
    ensures forall p :: LaunchReadable(store, p) ==> LaunchReadable(r, p)
    ensures Satisfied(r, path, options)
  {
    if path !in store then store
    else
      var launch := Launch(store, path);
      if Contains(launch, options) then store
      else store[path := store[path][DefaultValue := Sz(Rewrite(launch, options))]]
  }

  /** A launch command that already holds `options` causes no write
      (src/main.rs:223). */
  lemma ReconcileNoWrite(store: Store, path: string, options: string)
    requires path in store && LaunchReadable(store, path)
    requires Contains(Launch(store, path), options)
    ensures Reconciled(store, path, options) == store
  {
  }

  /** An empty option string never causes a write. */
  lemma ReconcileEmptyOptions(store: Store, path: string)
    requires LaunchReadable(store, path)
    ensures Reconciled(store, path, "") == store
  {
    if path in store {
      ContainsEmpty(Launch(store, path));
    }
  }

  /** A launch command without `options` is replaced by exactly
      `extract_executable(launch) + " " + options` (src/main.rs:223-225, :233). */
  lemma ReconcileWrites(store: Store, path: string, options: string)
    requires path in store && LaunchReadable(store, path)
    requires !Contains(Launch(store, path), options)
    ensures Launch(Reconciled(store, path, options), path)
            == ExtractExecutable(Launch(store, path)) + " " + options
  {
  }

  /** A launch command with no quoted token is replaced by `" " + options`:
      the executable defaults to "" and is not repaired. */
  lemma ReconcileWithoutQuotedToken(store: Store, path: string, options: string)
    requires path in store && LaunchReadable(store, path)
    requires !Contains(Launch(store, path), options)
    requires forall i, j :: !IsMatch(Launch(store, path), i, j)
    ensures Launch(Reconciled(store, path, options), path) == " " + options
  {
  }

  /** A rewrite keeps the executable the launch command started with. */
  lemma ReconcileKeepsExecutable(store: Store, path: string, options: string)
    requires path in store && LaunchReadable(store, path)
    requires ExtractExecutable(Launch(store, path)) != ""
    ensures ExtractExecutable(Launch(Reconciled(store, path, options), path))
            == ExtractExecutable(Launch(store, path))
  {
    var launch := Launch(store, path);
    if !Contains(launch, options) {
      ExtractExecutableKeepsPrefix(launch, " " + options);
      assert ExtractExecutable(launch) + " " + options == ExtractExecutable(launch) + (" " + options);
    }
  }

  /** A second reconcile with the same options writes nothing. */
  lemma ReconcileIdempotent(store: Store, path: string, options: string)
    requires LaunchReadable(store, path)
    ensures Reconciled(Reconciled(store, path, options), path, options) == Reconciled(store, path, options)
  {
  }

  /** Every launch entry of `keyTypes` can be read without a panic. */
  predicate AllReadable(store: Store, keyTypes: seq<string>, installId: string) {
    forall k :: 0 <= k < |keyTypes| ==> LaunchReadable(store, LaunchPath(keyTypes[k], installId))
  }

  /** Every launch entry of `keyTypes` is absent or holds `options`. */
  predicate AllSatisfied(store: Store, keyTypes: seq<string>, installId: string, options: string) {
    forall k :: 0 <= k < |keyTypes| ==> Satisfied(store, LaunchPath(keyTypes[k], installId), options)
  }

  /** One reconciliation tick: `Reconciled` for each entry of `keyTypes`, in
      order (src/main.rs:264-266). */
  function ReconcileAll(store: Store, keyTypes: seq<string>, installId: string, options: string): (r: Store)
    requires AllReadable(store, keyTypes, installId)
    ensures r.Keys == store.Keys
    ensures forall p :: LaunchReadable(store, p) ==> LaunchReadable(r, p)
    decreases |keyTypes|
  {
    if keyTypes == [] then store
    else
      var init := keyTypes[..|keyTypes| - 1];
      var before := ReconcileAll(store, init, installId, options);
      Reconciled(before, LaunchPath(keyTypes[|keyTypes| - 1], installId), options)
  }

  /** After a tick every launch entry of `keyTypes` that exists holds
      `options`, whichever others could not be opened. */
  lemma {:induction false} ReconcileAllSatisfies(store: Store, keyTypes: seq<string>, installId: string, options: string)
    requires AllReadable(store, keyTypes, installId)
    ensures AllSatisfied(ReconcileAll(store, keyTypes, installId, options), keyTypes, installId, options)
  {
    if keyTypes != [] {
      var n := |keyTypes| - 1;
      var init := keyTypes[..n];
      ReconcileAllSatisfies(store, init, installId, options);
      var before := ReconcileAll(store, init, installId, options);
      var last := LaunchPath(keyTypes[n], installId);
      forall k | 0 <= k < |keyTypes|
        ensures Satisfied(ReconcileAll(store, keyTypes, installId, options), LaunchPath(keyTypes[k], installId), options)
      {
        if LaunchPath(keyTypes[k], installId) != last {
          assert keyTypes[k] == init[k];
        }
      }
    }
  }

  /** A tick over entries that already hold `options` writes nothing. */
  lemma {:induction false} ReconcileAllUnchanged(store: Store, keyTypes: seq<string>, installId: string, options: string)
    requires AllReadable(store, keyTypes, installId)
    requires AllSatisfied(store, keyTypes, installId, options)
    ensures ReconcileAll(store, keyTypes, installId, options) == store
  {
    if keyTypes != [] {
      var n := |keyTypes| - 1;
      var init := keyTypes[..n];
      assert AllReadable(store, init, installId) && AllSatisfied(store, init, installId, options) by {
        forall k | 0 <= k < n ensures init[k] == keyTypes[k] { }
      }
      ReconcileAllUnchanged(store, init, installId, options);
      assert Satisfied(store, LaunchPath(keyTypes[n], installId), options);
    }
  }

  /** A second tick with the same options writes nothing. */
  lemma ReconcileAllIdempotent(store: Store, keyTypes: seq<string>, installId: string, options: string)
    requires AllReadable(store, keyTypes, installId)
    ensures ReconcileAll(ReconcileAll(store, keyTypes, installId, options), keyTypes, installId, options)
            == ReconcileAll(store, keyTypes, installId, options)
  {
    var once := ReconcileAll(store, keyTypes, installId, options);
    ReconcileAllSatisfies(store, keyTypes, installId, options);
    assert AllReadable(once, keyTypes, installId);
    ReconcileAllUnchanged(once, keyTypes, installId, options);
  }

  /** A tick changes nothing but the default values of the tracked launch
      entries: other keys and other values keep their contents. */
  lemma {:induction false} ReconcileAllFrame(store: Store, keyTypes: seq<string>, installId: string, options: string)
    requires AllReadable(store, keyTypes, installId)
    ensures forall p :: p in store && (forall k :: 0 <= k < |keyTypes| ==> p != LaunchPath(keyTypes[k], installId))
              ==> ReconcileAll(store, keyTypes, installId, options)[p] == store[p]
    ensures forall p, v :: p in store && v in store[p] && v != DefaultValue
              ==> v in ReconcileAll(store, keyTypes, installId, options)[p]
                  && ReconcileAll(store, keyTypes, installId, options)[p][v] == store[p][v]
  {
    if keyTypes != [] {
      var n := |keyTypes| - 1;
      var init := keyTypes[..n];
      ReconcileAllFrame(store, init, installId, options);
      forall p | p in store && (forall k :: 0 <= k < |keyTypes| ==> p != LaunchPath(keyTypes[k], installId))
        ensures forall k :: 0 <= k < |init| ==> p != LaunchPath(init[k], installId)
      {
        forall k | 0 <= k < |init| ensures p != LaunchPath(init[k], installId) {
          assert init[k] == keyTypes[k];
        }
      }
    }
  }
}
