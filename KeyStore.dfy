/** KeyManager: loads every regular file under the configured key directory as
    an RSA public key, keyed by the file's base name, and answers lookups. */
module KeyStore {
  import opened Wrappers
  import opened JavaStrings
  import opened Foreign
  import Pem

  /** KeyData: the key identifier (the file's base name) and the parsed key. */
  datatype KeyData = KeyData(keyId: string, publicKey: PublicKey)

  /** One path the directory walk yields. `lines` is what Files.readAllLines
      returns for it (each line without its terminator), None where the read
      throws. */
  datatype WalkedPath = WalkedPath(path: string, isRegularFile: bool, lines: Option<seq<string>>)

  /** Path.getFileName().toString() for a '/'-separated path. */
  function FileName(path: string): (name: string)
    ensures '/' !in name && |name| <= |path| && name == path[|path| - |name|..]
  {
    AfterLast(path, '/')
  }

  /** `walk.filter(Files::isRegularFile)`, in walk order. */
  function RegularFiles(walk: seq<WalkedPath>): (files: seq<WalkedPath>)
    ensures forall i :: 0 <= i < |files| ==> files[i].isRegularFile && files[i] in walk
    ensures forall f :: f in walk && f.isRegularFile ==> f in files
  {
    if walk == [] then []
    else (if walk[0].isRegularFile then [walk[0]] else []) + RegularFiles(walk[1..])
  }

  /** Filtering keeps the walk's order: filtering two stretches of the walk one
      after the other is filtering them concatenated. */
  lemma {:induction false} RegularFilesAppend(a: seq<WalkedPath>, b: seq<WalkedPath>)
    ensures RegularFiles(a + b) == RegularFiles(a) + RegularFiles(b)
  {
    if a != [] {
      assert (a + b)[0] == a[0];
      assert (a + b)[1..] == a[1..] + b;
      RegularFilesAppend(a[1..], b);
    } else {
      assert a + b == b;
    }
  }

  /** A walk of regular files only is kept whole, in its own order. */
  lemma {:induction false} RegularFilesKeepsAll(walk: seq<WalkedPath>)
    requires forall i :: 0 <= i < |walk| ==> walk[i].isRegularFile
    ensures RegularFiles(walk) == walk
  {
    if walk != [] {
      RegularFilesKeepsAll(walk[1..]);
      assert [walk[0]] + walk[1..] == walk;
    }
  }

  /** loadPublicKey: clean the PEM text, base64-decode it, parse it as an X.509
      SubjectPublicKeyInfo; None where either library call throws. */
  function LoadPublicKey(content: string, codecs: Codecs): (key: Option<PublicKey>)
    ensures var bytes := codecs.base64Decode(Pem.Clean(content));
      key.Some? <==> bytes.Some? && codecs.parseX509(bytes.value).Some?
    ensures var bytes := codecs.base64Decode(Pem.Clean(content));
      key.Some? ==> key == codecs.parseX509(bytes.value)
  {
    match codecs.base64Decode(Pem.Clean(content))
    case None => None
    case Some(bytes) => codecs.parseX509(bytes)
  }

  /** The body of init's per-file try block: read the lines, join them with
      "", load the key and pair it with the file's base name; None where any
      step throws. */
  function LoadFile(f: WalkedPath, codecs: Codecs): (kd: Option<KeyData>)
    ensures kd.Some? ==> kd.value.keyId == FileName(f.path)
    ensures kd.Some? <==> f.lines.Some? && LoadPublicKey(Concat(f.lines.value), codecs).Some?
    ensures kd.Some? ==> LoadPublicKey(Concat(f.lines.value), codecs) == Some(kd.value.publicKey)
  {
    match f.lines
    case None => None
    case Some(lines) =>
      match LoadPublicKey(Concat(lines), codecs)
      case None => None
      case Some(key) => Some(KeyData(FileName(f.path), key))
  }

  /** A file loads under its base name exactly when it can be read and its
      joined lines load as a key. */
  lemma LoadFileSucceeds(f: WalkedPath, codecs: Codecs, k: string)
    ensures LoadsAs(f, FileLoader(codecs), k)
        <==> f.lines.Some? && LoadPublicKey(Concat(f.lines.value), codecs).Some? && FileName(f.path) == k
  {
  }

  /** LoadFile as a value, for the fold below. */
  function FileLoader(codecs: Codecs): WalkedPath -> Option<KeyData> {
    f => LoadFile(f, codecs)
  }

  /** The file loads and is stored under `k`. */
  predicate LoadsAs(f: WalkedPath, load: WalkedPath -> Option<KeyData>, k: string) {
    load(f).Some? && load(f).value.keyId == k
  }

  /** The entries init puts into the map for these files, in order: a file
      that does not load adds nothing; one that does is stored under its key
      identifier, overwriting an earlier entry with the same identifier. */
  function LoadKeys(files: seq<WalkedPath>, load: WalkedPath -> Option<KeyData>): (m: map<string, KeyData>)
    ensures forall k :: k in m ==> m[k].keyId == k
  {
    if files == [] then map[]
    else
      var m := LoadKeys(files[..|files| - 1], load);
      match load(files[|files| - 1])
      case None => m
      case Some(kd) => m[kd.keyId := kd]
  }

  /** Loading two lists one after the other is loading them concatenated. */
  lemma {:induction false} LoadKeysAppend(a: seq<WalkedPath>, b: seq<WalkedPath>, load: WalkedPath -> Option<KeyData>)
    ensures LoadKeys(a + b, load) == LoadKeys(a, load) + LoadKeys(b, load)
  {
    if b == [] {
      assert a + b == a;
    } else {
      var b' := b[..|b| - 1];
      assert (a + b)[..|a + b| - 1] == a + b';
      assert (a + b)[|a + b| - 1] == b[|b| - 1];
      LoadKeysAppend(a, b', load);
    }
  }

  /** One more file: the fold over a prefix grows by that file's entry. */
  lemma LoadKeysStep(files: seq<WalkedPath>, i: int, load: WalkedPath -> Option<KeyData>)
    requires 0 <= i < |files|
    ensures load(files[i]).None? ==> LoadKeys(files[..i + 1], load) == LoadKeys(files[..i], load)
    ensures load(files[i]).Some? ==>
      LoadKeys(files[..i + 1], load) == LoadKeys(files[..i], load)[load(files[i]).value.keyId := load(files[i]).value]
  {
    assert files[..i + 1][..i] == files[..i];
  }

  lemma UnionUpdate<K, V>(a: map<K, V>, b: map<K, V>, k: K, v: V)
    ensures (a + b)[k := v] == a + b[k := v]
  {
  }

  /** A file whose read or parse throws is skipped: the map is what the other
      files give, before it and after it. */
  lemma LoadKeysSkipsFailure(a: seq<WalkedPath>, f: WalkedPath, b: seq<WalkedPath>, load: WalkedPath -> Option<KeyData>)
    requires load(f).None?
    ensures LoadKeys(a + [f] + b, load) == LoadKeys(a + b, load)
  {
    LoadKeysAppend(a + [f], b, load);
    LoadKeysAppend(a, [f], load);
    LoadKeysAppend(a, b, load);
    assert [f][..0] == [];
  }

  /** Some file among `files` loads under base name `k`. */
  ghost predicate LoadedAmong(files: seq<WalkedPath>, load: WalkedPath -> Option<KeyData>, k: string) {
    exists j :: 0 <= j < |files| && LoadsAs(files[j], load, k)
  }

  lemma LoadedAmongSnoc(files: seq<WalkedPath>, load: WalkedPath -> Option<KeyData>, k: string)
    requires files != []
    ensures LoadedAmong(files, load, k)
        <==> LoadedAmong(files[..|files| - 1], load, k) || LoadsAs(files[|files| - 1], load, k)
  {
    var init := files[..|files| - 1];
    if LoadedAmong(init, load, k) {
      var j :| 0 <= j < |init| && LoadsAs(init[j], load, k);
      assert files[j] == init[j];
    }
    if LoadedAmong(files, load, k) {
      var j :| 0 <= j < |files| && LoadsAs(files[j], load, k);
      if j < |init| {
        assert init[j] == files[j];
      }
    }
  }

  /** A key is in the map exactly when some file with that base name loads. */
  lemma {:induction false} LoadKeysDomain(files: seq<WalkedPath>, load: WalkedPath -> Option<KeyData>, k: string)
    ensures k in LoadKeys(files, load) <==> LoadedAmong(files, load, k)
  {
    if files != [] {
      LoadKeysDomain(files[..|files| - 1], load, k);
      LoadedAmongSnoc(files, load, k);
    }
  }

  /** The entry for a key comes from the last file with that base name whose
      key loads: last write wins. */
  lemma {:induction false} LoadKeysLastWins(files: seq<WalkedPath>, load: WalkedPath -> Option<KeyData>, j: int, k: string)
    requires 0 <= j < |files| && LoadsAs(files[j], load, k)
    requires forall j' :: j < j' < |files| ==> !LoadsAs(files[j'], load, k)
    ensures k in LoadKeys(files, load) && LoadKeys(files, load)[k] == load(files[j]).value
  {
    var last := |files| - 1;
    if j < last {
      var init := files[..last];
      assert !LoadsAs(files[last], load, k);
      forall j' | j < j' < |init| ensures !LoadsAs(init[j'], load, k) {
        assert init[j'] == files[j'];
      }
      LoadKeysLastWins(init, load, j, k);
    }
  }

  /** A canonical PEM file, header line, body lines, footer line, reaches the
      base64 decoder as its body lines joined together. */
  lemma CanonicalFileCleansToBody(body: seq<string>)
    requires forall i :: 0 <= i < |body| ==> '-' !in body[i] && '\r' !in body[i] && '\n' !in body[i]
    requires Concat(body) != []
    ensures var header, footer := Pem.Dashes(5) + Pem.BEGIN_MARKER + Pem.Dashes(5), Pem.Dashes(5) + Pem.END_MARKER + Pem.Dashes(5);
      Pem.Clean(Concat([header] + body + [footer])) == Concat(body)
  {
    var header, footer := Pem.Dashes(5) + Pem.BEGIN_MARKER + Pem.Dashes(5), Pem.Dashes(5) + Pem.END_MARKER + Pem.Dashes(5);
    ConcatFramed(header, body, footer);
    ConcatChars(body, '-');
    ConcatChars(body, '\r');
    ConcatChars(body, '\n');
    AppendThree(header + Concat(body), Pem.Dashes(5), Pem.END_MARKER, Pem.Dashes(5));
    Pem.CleanCanonical(5, 5, Concat(body), 5, 5);
  }

  lemma AppendThree(p: string, x: string, y: string, z: string)
    ensures p + (x + y + z) == p + x + y + z
  {
  }

  class KeyManager {
    /** key identifier -> KeyData; filled by Init, then only read. */
    var keyMap: map<string, KeyData>

    /** Every entry is stored under its own key identifier. */
    ghost predicate Valid()
      reads this
    {
      forall k :: k in keyMap ==> keyMap[k].keyId == k
    }

    constructor ()
      ensures Valid() && keyMap == map[]
    {
      keyMap := map[];
    }

    /** init: `walk` is what Files.walk yields under the base path, None where
        the walk itself throws (the map is then left as it was). The regular
        files are loaded in walk order. */
    method Init(walk: Option<seq<WalkedPath>>, codecs: Codecs)
      requires Valid()
      modifies this
      ensures Valid()
      ensures walk.None? ==> keyMap == old(keyMap)
      ensures walk.Some? ==> keyMap == old(keyMap) + LoadKeys(RegularFiles(walk.value), FileLoader(codecs))
    {
      if walk.None? {
        return;
      }
      LoadEach(RegularFiles(walk.value), FileLoader(codecs));
    }

    /** init's forEach: each file goes through `load` (the per-file try
        block); a file that fails is skipped and the loop goes on, one that
        loads is put into the map under its key identifier. */
    method LoadEach(files: seq<WalkedPath>, load: WalkedPath -> Option<KeyData>)
      requires Valid()
      modifies this
      ensures Valid()
      ensures keyMap == old(keyMap) + LoadKeys(files, load)
    {
      var i := 0;
      while i < |files|
        invariant 0 <= i <= |files|
        invariant Valid()
        invariant keyMap == old(keyMap) + LoadKeys(files[..i], load)
      {
        LoadKeysStep(files, i, load);
        var loaded := load(files[i]);
        if loaded.Some? {
          var keyData := loaded.value;
          UnionUpdate(old(keyMap), LoadKeys(files[..i], load), keyData.keyId, keyData);
          keyMap := keyMap[keyData.keyId := keyData];
        }
        i := i + 1;
      }
      assert files[..i] == files;
    }

    /** getPublicKey: the entry for `keyId`, or None (Java's null). */
    function GetPublicKey(keyId: string): (r: Option<KeyData>)
      reads this
      ensures r.Some? <==> keyId in keyMap
      ensures r.Some? ==> r.value == keyMap[keyId]
      ensures Valid() && r.Some? ==> r.value.keyId == keyId
    {
      if keyId in keyMap then Some(keyMap[keyId]) else None
    }
  }
}
