/** The uninstall data file: a little-endian count, then location, length and bytes of every entry. */
module UndoFile {
  import opened Bytes
  import opened UndoLog

  /** `store_uninstall_data`, when no file error occurs. Writing zero bytes with one `fwrite` call
      reports zero items, so an empty entry makes the whole call fail. */
  function StoreEntries(log: seq<Extent>): (r: Option<seq<byte>>) {
    if log == [] then Some([])
    else if log[0].data == [] then None
    else
      match StoreEntries(log[1..])
      case None => None
      case Some(rest) =>
        Some(LittleEndian(log[0].loc, 8) + LittleEndian(|log[0].data|, 8) + log[0].data + rest)
  }

  function StoreFile(log: seq<Extent>): (r: Option<seq<byte>>) {
    match StoreEntries(log)
    case None => None
    case Some(rest) => Some(LittleEndian(|log|, 8) + rest)
  }

  /** The entry at the front of `file`; a short read or an empty entry fails. */
  function ParseEntry(file: seq<byte>): (r: Option<Extent>)
    ensures r.Some? ==> 16 + |r.value.data| <= |file|
  {
    if |file| < 16 then None
    else
      var count := FromLittleEndian(file[8..16]);
      if count == 0 || |file| < 16 + count then None
      else Some(Extent(FromLittleEndian(file[..8]), file[16..16 + count]))
  }

  /** `load_uninstall_data`: `n` entries from the front of `file`. */
  function LoadEntries(file: seq<byte>, n: nat): (r: Option<seq<Extent>>)
    decreases n
  {
    if n == 0 then Some([])
    else
      match ParseEntry(file)
      case None => None
      case Some(e) => Prefixed([e], LoadEntries(file[16 + |e.data|..], n - 1))
  }

  /** Entries already loaded, followed by what the rest of the file yields. */
  function Prefixed(done: seq<Extent>, rest: Option<seq<Extent>>): Option<seq<Extent>> {
    if rest.None? then None else Some(done + rest.value)
  }

  lemma PrefixedStep(done: seq<Extent>, e: Extent, rest: Option<seq<Extent>>)
    ensures Prefixed(done, Prefixed([e], rest)) == Prefixed(done + [e], rest)
    ensures Prefixed([], rest) == rest
  {
    if rest.Some? {
      assert done + ([e] + rest.value) == done + [e] + rest.value;
      assert [] + rest.value == rest.value;
    }
  }

  /** After `i` of `n` entries `done` is what has been loaded, and the others come from `rest`. */
  ghost predicate Loads(all: seq<byte>, n: nat, done: seq<Extent>, rest: seq<byte>, i: nat) {
    i <= n && LoadEntries(all, n) == Prefixed(done, LoadEntries(rest, n - i))
  }

  lemma LoadsFirst(all: seq<byte>, n: nat)
    ensures Loads(all, n, [], all, 0)
  {
    PrefixedStep([], Extent(0, []), LoadEntries(all, n));
  }

  lemma LoadsNext(all: seq<byte>, n: nat, done: seq<Extent>, rest: seq<byte>, i: nat)
    requires Loads(all, n, done, rest, i) && i < n
    ensures match ParseEntry(rest)
            case None => LoadEntries(all, n).None?
            case Some(e) => Loads(all, n, done + [e], rest[16 + |e.data|..], i + 1)
  {
    if ParseEntry(rest).Some? {
      var e := ParseEntry(rest).value;
      PrefixedStep(done, e, LoadEntries(rest[16 + |e.data|..], n - i - 1));
    }
  }

  lemma LoadsLast(all: seq<byte>, n: nat, done: seq<Extent>, rest: seq<byte>)
    requires Loads(all, n, done, rest, n)
    ensures LoadEntries(all, n) == Some(done)
  {
    assert done + [] == done;
  }

  function LoadFile(file: seq<byte>): (r: Option<seq<Extent>>) {
    if |file| < 8 then None else LoadEntries(file[8..], FromLittleEndian(file[..8]))
  }

  predicate Storable(log: seq<Extent>) {
    && |log| < WORD
    && forall k :: 0 <= k < |log| ==> log[k].loc < WORD && |log[k].data| < WORD
  }

  predicate NoneEmpty(log: seq<Extent>) {
    forall k :: 0 <= k < |log| ==> log[k].data != []
  }

  lemma Word(n: nat)
    requires n < WORD
    ensures FromLittleEndian(LittleEndian(n, 8)) == n
  {
    Pow256Values();
    LittleEndianRoundTrip(n, 8);
  }

  lemma {:induction false} EntriesRoundTrip(log: seq<Extent>, tail: seq<byte>)
    requires Storable(log)
    ensures StoreEntries(log).Some? <==> NoneEmpty(log)
    ensures StoreEntries(log).Some? ==> LoadEntries(StoreEntries(log).value + tail, |log|) == Some(log)
  {
    if log != [] {
      NoneEmptyCons(log);
      EntriesRoundTrip(log[1..], tail);
      if StoreEntries(log).Some? {
        FirstEntryRoundTrip(log, StoreEntries(log[1..]).value, tail);
      }
    }
  }

  lemma NoneEmptyCons(log: seq<Extent>)
    requires log != []
    ensures NoneEmpty(log) <==> log[0].data != [] && NoneEmpty(log[1..])
  {
  }

  lemma FirstEntryRoundTrip(log: seq<Extent>, rest: seq<byte>, tail: seq<byte>)
    requires log != [] && log[0].loc < WORD && 0 < |log[0].data| < WORD
    requires LoadEntries(rest + tail, |log| - 1) == Some(log[1..])
    ensures var e := log[0];
      LoadEntries(LittleEndian(e.loc, 8) + LittleEndian(|e.data|, 8) + e.data + rest + tail, |log|) == Some(log)
  {
    var e := log[0];
    var front := LittleEndian(e.loc, 8) + LittleEndian(|e.data|, 8) + e.data;
    ParseStored(e, rest + tail);
    assert front + rest + tail == front + (rest + tail);
    assert (front + (rest + tail))[16 + |e.data|..] == rest + tail;
    assert [e] + log[1..] == log;
  }

  lemma ParseStored(e: Extent, tail: seq<byte>)
    requires e.loc < WORD && 0 < |e.data| < WORD
    ensures ParseEntry(LittleEndian(e.loc, 8) + LittleEndian(|e.data|, 8) + e.data + tail) == Some(e)
  {
    Word(e.loc);
    Word(|e.data|);
    var file := LittleEndian(e.loc, 8) + LittleEndian(|e.data|, 8) + e.data + tail;
    assert file[..8] == LittleEndian(e.loc, 8);
    assert file[8..16] == LittleEndian(|e.data|, 8);
    assert file[16..16 + |e.data|] == e.data;
  }

  /** A log can be stored exactly when no entry is empty, and what was stored loads back unchanged,
      also when more bytes follow in the file. */
  lemma FileRoundTrip(log: seq<Extent>, tail: seq<byte>)
    requires Storable(log)
    ensures StoreFile(log).Some? <==> NoneEmpty(log)
    ensures StoreFile(log).Some? ==> LoadFile(StoreFile(log).value + tail) == Some(log)
  {
    hide StoreEntries, LoadEntries, Bytes.LittleEndian, Bytes.FromLittleEndian, NoneEmpty;
    EntriesRoundTrip(log, tail);
    if StoreFile(log).Some? {
      Word(|log|);
      var file := StoreFile(log).value + tail;
      assert file[..8] == LittleEndian(|log|, 8);
      assert file[8..] == StoreEntries(log).value + tail;
    }
  }

  lemma {:induction false} FewerLoad(file: seq<byte>, n: nat, m: nat)
    requires m <= n && LoadEntries(file, n).Some?
    ensures LoadEntries(file, m).Some?
    decreases n
  {
    if m > 0 {
      FewerLoad(file[16 + |ParseEntry(file).value.data|..], n - 1, m - 1);
    }
  }

  /** A file that announces 257 entries, and has them. */
  lemma OverrunningFile() returns (file: seq<byte>)
    ensures 8 <= |file| && FromLittleEndian(file[..8]) == 257 && LoadEntries(file[8..], 256).Some?
  {
    hide StoreEntries, Bytes.LittleEndian, Bytes.FromLittleEndian;
    var log := seq(257, _ => Extent(0, [0]));
    EntriesRoundTrip(log, []);
    var rest := StoreEntries(log).value;
    file := LittleEndian(257, 8) + rest;
    Word(257);
    assert file[..8] == LittleEndian(257, 8) && file[8..] == rest + [];
    FewerLoad(rest + [], 257, 256);
  }

  // ---------- where everything lies in the file ----------

  /** The bytes that the first `k` entries take. */
  function EntriesSize(log: seq<Extent>, k: nat): (n: nat)
    requires k <= |log|
  {
    if k == 0 then 0 else EntriesSize(log, k - 1) + 16 + |log[k - 1].data|
  }

  ghost predicate EntryLies(bytes: seq<byte>, at: nat, e: Extent) {
    && at + 16 + |e.data| <= |bytes|
    && FromLittleEndian(bytes[at..at + 8]) == e.loc && FromLittleEndian(bytes[at + 8..at + 16]) == |e.data|
    && bytes[at + 16..at + 16 + |e.data|] == e.data
  }

  lemma {:induction false} EntriesSizeTail(log: seq<Extent>, k: nat)
    requires 0 < k <= |log|
    ensures EntriesSize(log, k) == 16 + |log[0].data| + EntriesSize(log[1..], k - 1)
  {
    if k > 1 {
      EntriesSizeTail(log, k - 1);
    }
  }

  lemma EntryMoved(front: seq<byte>, bytes: seq<byte>, at: nat, e: Extent)
    requires EntryLies(bytes, at, e)
    ensures EntryLies(front + bytes, |front| + at, e)
  {
    var f, all := |front|, front + bytes;
    assert forall i :: 0 <= i < |bytes| ==> all[f + i] == bytes[i];
    assert all[f + at..f + at + 8] == bytes[at..at + 8];
    assert all[f + at + 8..f + at + 16] == bytes[at + 8..at + 16];
    assert all[f + at + 16..f + at + 16 + |e.data|] == bytes[at + 16..at + 16 + |e.data|];
  }

  lemma FirstLies(e: Extent, rest: seq<byte>)
    requires e.loc < WORD && |e.data| < WORD
    ensures EntryLies(LittleEndian(e.loc, 8) + LittleEndian(|e.data|, 8) + e.data + rest, 0, e)
  {
    Word(e.loc);
    Word(|e.data|);
    var bytes := LittleEndian(e.loc, 8) + LittleEndian(|e.data|, 8) + e.data + rest;
    assert bytes[0..8] == LittleEndian(e.loc, 8);
    assert bytes[8..16] == LittleEndian(|e.data|, 8);
    assert bytes[16..16 + |e.data|] == e.data;
  }

  lemma {:induction false} EntriesLie(log: seq<Extent>, k: nat)
    requires Storable(log) && StoreEntries(log).Some?
    ensures |StoreEntries(log).value| == EntriesSize(log, |log|)
    ensures k < |log| ==> EntryLies(StoreEntries(log).value, EntriesSize(log, k), log[k])
    decreases |log|
  {
    hide EntryLies, Bytes.LittleEndian;
    if log != [] {
      var e, rest := log[0], StoreEntries(log[1..]).value;
      var front := LittleEndian(e.loc, 8) + LittleEndian(|e.data|, 8) + e.data;
      EntriesLie(log[1..], if k == 0 then 0 else k - 1);
      EntriesSizeTail(log, |log|);
      if 0 < k < |log| {
        EntriesSizeTail(log, k);
        EntryMoved(front, rest, EntriesSize(log[1..], k - 1), log[k]);
      } else {
        FirstLies(e, rest);
      }
    }
  }

  /** The file: the number of entries in its first eight bytes, and behind them one entry after the other, each with
      its place, its length and its bytes. */
  lemma FileLayout(log: seq<Extent>, k: nat)
    requires Storable(log) && NoneEmpty(log) && k < |log|
    ensures StoreFile(log).Some?
    ensures var file := StoreFile(log).value;
      && |file| == 8 + EntriesSize(log, |log|) && FromLittleEndian(file[..8]) == |log|
      && EntryLies(file, 8 + EntriesSize(log, k), log[k])
  {
    hide StoreEntries, EntryLies, Bytes.LittleEndian, Bytes.FromLittleEndian, NoneEmpty;
    EntriesRoundTrip(log, []);
    EntriesLie(log, k);
    Word(|log|);
    var front, rest := LittleEndian(|log|, 8), StoreEntries(log).value;
    EntryMoved(front, rest, EntriesSize(log, k), log[k]);
    assert (front + rest)[..8] == front;
  }

  /** The entries lie in `bytes` one behind the other, from address `at` on. */
  ghost predicate AllLie(bytes: seq<byte>, at: nat, log: seq<Extent>)
    decreases |log|
  {
    log == [] || (log[0].data != [] && EntryLies(bytes, at, log[0]) && AllLie(bytes, at + 16 + |log[0].data|, log[1..]))
  }

  lemma ParsedLies(bytes: seq<byte>, at: nat)
    requires at <= |bytes|
    ensures match ParseEntry(bytes[at..])
            case Some(e) => e.data != [] && EntryLies(bytes, at, e)
            case None => forall e: Extent :: e.data != [] ==> !EntryLies(bytes, at, e)
  {
    var tail := bytes[at..];
    if |tail| >= 16 {
      assert tail[..8] == bytes[at..at + 8] && tail[8..16] == bytes[at + 8..at + 16];
      if ParseEntry(tail).Some? {
        var n := |ParseEntry(tail).value.data|;
        assert tail[16..16 + n] == bytes[at + 16..at + 16 + n];
      }
    }
  }

  lemma SameEntry(bytes: seq<byte>, at: nat, a: Extent, b: Extent)
    requires EntryLies(bytes, at, a) && EntryLies(bytes, at, b)
    ensures a == b
  {
  }

  lemma {:induction false} LoadsLying(bytes: seq<byte>, at: nat, log: seq<Extent>)
    requires at <= |bytes|
    ensures LoadEntries(bytes[at..], |log|) == Some(log) <==> AllLie(bytes, at, log)
    decreases |log|
  {
    hide EntryLies, ParseEntry;
    if log != [] {
      ParsedLies(bytes, at);
      var p := ParseEntry(bytes[at..]);
      if p.Some? {
        if AllLie(bytes, at, log) {
          SameEntry(bytes, at, p.value, log[0]);
        }
        var next := at + 16 + |p.value.data|;
        EntryEnds(bytes, at, p.value);
        assert bytes[at..][16 + |p.value.data|..] == bytes[next..];
        LoadsLying(bytes, next, log[1..]);
        PrefixedIs(p.value, LoadEntries(bytes[next..], |log| - 1), log);
      }
    }
  }

  lemma EntryEnds(bytes: seq<byte>, at: nat, e: Extent)
    requires EntryLies(bytes, at, e)
    ensures at + 16 + |e.data| <= |bytes|
  {
  }

  lemma PrefixedIs(e: Extent, rest: Option<seq<Extent>>, log: seq<Extent>)
    requires log != []
    ensures Prefixed([e], rest) == Some(log) <==> e == log[0] && rest == Some(log[1..])
  {
    if rest.Some? {
      assert ([e] + rest.value)[0] == e && ([e] + rest.value)[1..] == rest.value;
      assert log == [log[0]] + log[1..];
    }
  }

  /** Just those logs are loaded that lie in the file as announced, none of their entries empty. */
  lemma LoadsExactly(file: seq<byte>, log: seq<Extent>)
    ensures LoadFile(file) == Some(log)
            <==> 8 <= |file| && FromLittleEndian(file[..8]) == |log| && AllLie(file, 8, log)
  {
    hide AllLie, LoadEntries, Bytes.FromLittleEndian;
    if 8 <= |file| {
      LoadsLying(file, 8, log);
      LoadedLength(file[8..], FromLittleEndian(file[..8]));
    }
  }

  lemma {:induction false} LoadedLength(file: seq<byte>, n: nat)
    ensures LoadEntries(file, n).Some? ==> |LoadEntries(file, n).value| == n
    decreases n
  {
    if n > 0 && ParseEntry(file).Some? {
      LoadedLength(file[16 + |ParseEntry(file).value.data|..], n - 1);
    }
  }
}
