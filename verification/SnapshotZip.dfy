/**
 The backup ZIP of server/src/backup/snapshot-zip.ts: the structural rules its reader applies to
 the central directory, the entry list its writer produces, and the loop that copies the ZIP's
 chunks to disk. Compression and the ZIP container itself belong to yazl and yauzl.
 */
module SnapshotZip {
  import opened Characters
  import opened Options
  import opened Sequences

  const ZIP_DATA_JSON: string := "data.json"
  const MAX_ENTRIES: nat := 20000
  const MAX_TOTAL_BYTES: nat := 1024 * 1024 * 1024
  const MAX_IMAGE_BYTES: nat := 3 * 1024 * 1024
  const MAX_DATA_JSON_BYTES: nat := 10 * 1024 * 1024

  /** One record of the central directory; yauzl has refused `\`, absolute paths and `..`. */
  datatype Entry = Entry(fileName: string, encrypted: bool, uncompressedSize: nat) {
    predicate IsDirectory() {
      fileName != [] && Last(fileName) == '/'
    }
  }

  // ---------------------------------------------------------------- names

  /** IMAGE_KEY: 32 lower-case hexadecimal characters. */
  predicate IsImageKey(k: string) {
    |k| == 32 && forall i :: 0 <= i < 32 ==> IsHexChar(k[i])
  }

  function ImageName(key: string): string {
    "images/" + key + ".webp"
  }

  /** ZIP_IMAGE.exec(name)[1]: the key of a well-named image. */
  function ImageKeyOf(name: string): (key: Option<string>)
    ensures key.Some? ==> IsImageKey(key.value) && name == ImageName(key.value)
  {
    if |name| == 44 && name[..7] == "images/" && name[39..] == ".webp" && IsImageKey(name[7..39]) then
      assert name == name[..7] + name[7..39] + name[39..];
      Some(name[7..39])
    else None
  }

  lemma ImageKeyOfName(key: string)
    requires IsImageKey(key)
    ensures ImageKeyOf(ImageName(key)) == Some(key)
    ensures ImageName(key) != ZIP_DATA_JSON && ImageName(key)[|ImageName(key)| - 1] == 'p'
  {
    var name := ImageName(key);
    assert name[..7] == "images/" && name[7..39] == key && name[39..] == ".webp";
    assert |name| == 44;
  }

  // ---------------------------------------------------------------- the declared format

  function Total(entries: seq<Entry>): nat {
    if entries == [] then 0
    else Total(Front(entries)) +
         (if Last(entries).IsDirectory() then 0 else Last(entries).uncompressedSize)
  }

  ghost predicate UniqueNames(entries: seq<Entry>) {
    forall i, j :: 0 <= i < j < |entries| ==> entries[i].fileName != entries[j].fileName
  }

  /** What a single entry may be: a directory, the data file or an image, in the clear and small
      enough. */
  predicate EntryFits(e: Entry) {
    || e.IsDirectory()
    || (&& !e.encrypted
        && if e.fileName == ZIP_DATA_JSON then e.uncompressedSize <= MAX_DATA_JSON_BYTES
           else ImageKeyOf(e.fileName).Some? && e.uncompressedSize <= MAX_IMAGE_BYTES)
  }

  /** The backup format, said without an order: unique names, every entry fits, at most 1 GB of
      files, and a data.json among them. */
  ghost predicate WellFormed(entries: seq<Entry>) {
    && UniqueNames(entries)
    && (forall e :: e in entries ==> EntryFits(e))
    && Total(entries) <= MAX_TOTAL_BYTES
    && (exists e :: e in entries && e.fileName == ZIP_DATA_JSON)
  }

  /** ZIP_IMAGE on its own terms. */
  lemma ImageNames(name: string, k: string)
    ensures ImageKeyOf(name) == Some(k) <==>
            && name == "images/" + k + ".webp" && |k| == 32
            && forall i :: 0 <= i < 32 ==> '0' <= k[i] <= '9' || 'a' <= k[i] <= 'f'
  {
    if IsImageKey(k) {
      ImageKeyOfName(k);
    }
  }

  lemma TotalOfOne(e: Entry)
    ensures Total([e]) == if e.fileName != [] && e.fileName[|e.fileName| - 1] == '/' then 0 else e.uncompressedSize
  {
    assert Front([e]) == [];
  }

  lemma {:induction false} TotalAdds(a: seq<Entry>, b: seq<Entry>)
    ensures Total(a + b) == Total(a) + Total(b)
  {
    if b == [] {
      assert a + b == a;
    } else {
      TotalAdds(a, Front(b));
      assert Front(a + b) == a + Front(b) && Last(a + b) == Last(b);
    }
  }

  /** The format with its numbers: unique names; every entry is a directory, a data.json of at most
      10 MiB or an image of at most 3 MiB, and no file is encrypted; at most 1 GiB in all; and a
      data.json. */
  lemma FormatInNumbers(entries: seq<Entry>)
    ensures WellFormed(entries) <==>
            && (forall i, j :: 0 <= i < j < |entries| ==> entries[i].fileName != entries[j].fileName)
            && (forall e :: e in entries ==>
                  || (e.fileName != [] && e.fileName[|e.fileName| - 1] == '/')
                  || (&& !e.encrypted
                      && (|| (e.fileName == "data.json" && e.uncompressedSize <= 10485760)
                          || (e.fileName != "data.json" && ImageKeyOf(e.fileName).Some?
                              && e.uncompressedSize <= 3145728))))
            && Total(entries) <= 1073741824
            && exists e :: e in entries && e.fileName == "data.json"
  {
    hide ImageKeyOf;
    hide Total;
  }

  /** What withZip lets through: few enough entries, and the backup format. */
  ghost predicate ReaderAccepts(entries: seq<Entry>) {
    |entries| <= MAX_ENTRIES && WellFormed(entries)
  }

  datatype Fault =
    | DuplicateName(name: string)
    | Encrypted(name: string)
    | TotalTooLarge
    | DataJsonTooLarge
    | UnknownFile(name: string)
    | ImageTooLarge(name: string)
    | NoDataJson

  /** The fault names something that is wrong with the list. */
  ghost predicate Justified(entries: seq<Entry>, fault: Fault) {
    match fault
    case DuplicateName(name) =>
      exists i, j :: 0 <= i < j < |entries| && entries[i].fileName == name && entries[j].fileName == name
    case Encrypted(name) => exists e :: e in entries && e.fileName == name && !e.IsDirectory() && e.encrypted
    case TotalTooLarge => Total(entries) > MAX_TOTAL_BYTES
    case DataJsonTooLarge =>
      exists e :: e in entries && e.fileName == ZIP_DATA_JSON && e.uncompressedSize > MAX_DATA_JSON_BYTES
    case UnknownFile(name) =>
      && ImageKeyOf(name).None? && name != ZIP_DATA_JSON
      && exists e :: e in entries && e.fileName == name && !e.IsDirectory()
    case ImageTooLarge(name) =>
      && ImageKeyOf(name).Some?
      && exists e :: e in entries && e.fileName == name && e.uncompressedSize > MAX_IMAGE_BYTES
    case NoDataJson => forall e :: e in entries ==> e.fileName != ZIP_DATA_JSON
  }

  datatype Checked = CheckedZip(dataJson: Entry, images: map<string, Entry>) | BackupZipInvalid(fault: Fault)

  ghost predicate NamesOf(entries: seq<Entry>, seen: set<string>) {
    forall n :: n in seen <==> exists i :: 0 <= i < |entries| && entries[i].fileName == n
  }

  /** The images are exactly the list's, each under its own key. */
  ghost predicate ImagesOf(entries: seq<Entry>, images: map<string, Entry>) {
    && (forall k :: k in images ==> images[k] in entries && ImageKeyOf(images[k].fileName) == Some(k))
    && (forall e :: e in entries && ImageKeyOf(e.fileName).Some? ==> ImageKeyOf(e.fileName).value in images)
  }

  ghost predicate Holds(entries: seq<Entry>, dataJson: Entry, images: map<string, Entry>) {
    && dataJson in entries && dataJson.fileName == ZIP_DATA_JSON
    && ImagesOf(entries, images)
  }

  lemma {:induction false} TotalGrows(entries: seq<Entry>, i: nat)
    requires i <= |entries|
    ensures Total(entries[..i]) <= Total(entries)
  {
    if i == |entries| {
      assert entries[..i] == entries;
    } else {
      TotalGrows(Front(entries), i);
      assert Front(entries)[..i] == entries[..i];
    }
  }

  /** What the loop of checkEntries knows after the entries `done`. */
  ghost predicate Scanned(done: seq<Entry>, total: nat, dataJson: Option<Entry>, images: map<string, Entry>,
                          seen: set<string>)
  {
    && NamesOf(done, seen)
    && UniqueNames(done)
    && (forall e :: e in done ==> EntryFits(e))
    && total == Total(done) <= MAX_TOTAL_BYTES
    && (dataJson.None? ==> forall e :: e in done ==> e.fileName != ZIP_DATA_JSON)
    && (dataJson.Some? ==> dataJson.value in done && dataJson.value.fileName == ZIP_DATA_JSON)
    && ImagesOf(done, images)
  }

  lemma NamesNext(done: seq<Entry>, seen: set<string>, e: Entry)
    requires NamesOf(done, seen) && UniqueNames(done) && e.fileName !in seen
    ensures NamesOf(done + [e], seen + {e.fileName}) && UniqueNames(done + [e])
  {
    var names := seen + {e.fileName};
    forall n ensures n in names <==> exists i :: 0 <= i < |done + [e]| && (done + [e])[i].fileName == n {
      if n == e.fileName {
        assert (done + [e])[|done|].fileName == n;
      } else if n in seen {
        var i :| 0 <= i < |done| && done[i].fileName == n;
        assert (done + [e])[i].fileName == n;
      }
    }
    assert forall i :: 0 <= i < |done| ==> done[i].fileName in seen;
  }

  lemma ImagesNext(done: seq<Entry>, images: map<string, Entry>, e: Entry)
    requires ImagesOf(done, images)
    ensures var key := ImageKeyOf(e.fileName);
            ImagesOf(done + [e], if key.Some? then images[key.value := e] else images)
  {
    hide ImageKeyOf;
  }

  lemma ScannedNext(done: seq<Entry>, total: nat, dataJson: Option<Entry>, images: map<string, Entry>,
                    seen: set<string>, e: Entry)
    requires Scanned(done, total, dataJson, images, seen)
    requires e.fileName !in seen && EntryFits(e)
    requires e.IsDirectory() || total + e.uncompressedSize <= MAX_TOTAL_BYTES
    ensures Scanned(done + [e],
                    if e.IsDirectory() then total else total + e.uncompressedSize,
                    if e.fileName == ZIP_DATA_JSON then Some(e) else dataJson,
                    if ImageKeyOf(e.fileName).Some? then images[ImageKeyOf(e.fileName).value := e] else images,
                    seen + {e.fileName})
  {
    hide ImageKeyOf;
    hide EntryFits;
    hide NamesOf;
    hide ImagesOf;
    hide UniqueNames;
    assert (done + [e])[..|done|] == done;
    NamesNext(done, seen, e);
    ImagesNext(done, images, e);
  }

  lemma DirectoryName(e: Entry)
    requires e.IsDirectory()
    ensures e.fileName != ZIP_DATA_JSON && ImageKeyOf(e.fileName).None?
  {
    if ImageKeyOf(e.fileName).Some? {
      ImageKeyOfName(ImageKeyOf(e.fileName).value);
    }
  }

  /** Why the loop gives up at entry e. */
  predicate FaultAt(e: Entry, total: nat, seen: set<string>, fault: Fault) {
    match fault
    case DuplicateName(name) => name == e.fileName && name in seen
    case Encrypted(name) => name == e.fileName && !e.IsDirectory() && e.encrypted
    case TotalTooLarge => !e.IsDirectory() && total + e.uncompressedSize > MAX_TOTAL_BYTES
    case DataJsonTooLarge => e.fileName == ZIP_DATA_JSON && e.uncompressedSize > MAX_DATA_JSON_BYTES
    case UnknownFile(name) =>
      name == e.fileName && !e.IsDirectory() && name != ZIP_DATA_JSON && ImageKeyOf(name).None?
    case ImageTooLarge(name) =>
      name == e.fileName && ImageKeyOf(name).Some? && e.uncompressedSize > MAX_IMAGE_BYTES
    case NoDataJson => false
  }

  lemma Blame(entries: seq<Entry>, i: nat, total: nat, dataJson: Option<Entry>, images: map<string, Entry>,
              seen: set<string>, fault: Fault)
    requires i < |entries| && Scanned(entries[..i], total, dataJson, images, seen)
    requires FaultAt(entries[i], total, seen, fault)
    ensures Justified(entries, fault) && !WellFormed(entries)
  {
    var e := entries[i];
    assert entries[..i + 1][..i] == entries[..i];
    TotalGrows(entries, i + 1);
    if fault.DuplicateName? {
      var j :| 0 <= j < i && entries[..i][j].fileName == fault.name;
      assert entries[j].fileName == entries[i].fileName;
    }
    assert e in entries;
  }

  lemma SameKeySameEntry(entries: seq<Entry>, a: Entry, b: Entry)
    requires UniqueNames(entries) && a in entries && b in entries
    requires ImageKeyOf(a.fileName).Some? && ImageKeyOf(a.fileName) == ImageKeyOf(b.fileName)
    ensures a == b
  {
    assert a.fileName == b.fileName;
  }

  /** checkEntries accepts exactly the backup format, finds exactly its files, and blames a real
      fault when it refuses. */
  method CheckEntries(entries: seq<Entry>) returns (r: Checked)
    ensures r.CheckedZip? <==> WellFormed(entries)
    ensures r.CheckedZip? ==> Holds(entries, r.dataJson, r.images)
    ensures r.CheckedZip? ==>
              && r.dataJson in entries && r.dataJson.fileName == "data.json"
              && (forall k :: k in r.images ==>
                    r.images[k] in entries && r.images[k].fileName == "images/" + k + ".webp" && IsImageKey(k))
              && (forall e, k :: e in entries && ImageKeyOf(e.fileName) == Some(k) ==>
                    k in r.images && r.images[k] == e)
    ensures r.BackupZipInvalid? ==> Justified(entries, r.fault)
  {
    var total: nat := 0;
    var dataJson: Option<Entry> := None;
    var images: map<string, Entry> := map[];
    var seen: set<string> := {};
    for i := 0 to |entries|
      invariant Scanned(entries[..i], total, dataJson, images, seen)
    {
      var e := entries[i];
      var name := e.fileName;
      assert entries[..i + 1] == entries[..i] + [e];
      if name in seen {
        Blame(entries, i, total, dataJson, images, seen, DuplicateName(name));
        return BackupZipInvalid(DuplicateName(name));
      }
      ghost var before := seen;
      seen := seen + {name};
      if e.IsDirectory() {
        DirectoryName(e);
        ScannedNext(entries[..i], total, dataJson, images, before, e);
        continue;
      }
      if e.encrypted {
        Blame(entries, i, total, dataJson, images, before, Encrypted(name));
        return BackupZipInvalid(Encrypted(name));
      }
      total := total + e.uncompressedSize;
      if total > MAX_TOTAL_BYTES {
        Blame(entries, i, total - e.uncompressedSize, dataJson, images, before, TotalTooLarge);
        return BackupZipInvalid(TotalTooLarge);
      }
      if name == ZIP_DATA_JSON {
        if e.uncompressedSize > MAX_DATA_JSON_BYTES {
          Blame(entries, i, total - e.uncompressedSize, dataJson, images, before, DataJsonTooLarge);
          return BackupZipInvalid(DataJsonTooLarge);
        }
        ScannedNext(entries[..i], total - e.uncompressedSize, dataJson, images, before, e);
        dataJson := Some(e);
        continue;
      }
      var m := ImageKeyOf(name);
      if m.None? {
        Blame(entries, i, total - e.uncompressedSize, dataJson, images, before, UnknownFile(name));
        return BackupZipInvalid(UnknownFile(name));
      }
      if e.uncompressedSize > MAX_IMAGE_BYTES {
        Blame(entries, i, total - e.uncompressedSize, dataJson, images, before, ImageTooLarge(name));
        return BackupZipInvalid(ImageTooLarge(name));
      }
      ScannedNext(entries[..i], total - e.uncompressedSize, dataJson, images, before, e);
      images := images[m.value := e];
    }
    assert entries[..|entries|] == entries;
    if dataJson.None? {
      return BackupZipInvalid(NoDataJson);
    }
    r := CheckedZip(dataJson.value, images);
    forall e, k | e in entries && ImageKeyOf(e.fileName) == Some(k) ensures k in images && images[k] == e {
      SameKeySameEntry(entries, images[k], e);
    }
  }

  // ---------------------------------------------------------------- the order does not matter

  ghost predicate Twice<T>(s: seq<T>, x: T) {
    exists i, j :: 0 <= i < j < |s| && s[i] == x && s[j] == x
  }

  lemma TwiceInFront<T>(s: seq<T>, x: T)
    requires s != []
    ensures Twice(s, x) <==> Twice(Front(s), x) || (x in Front(s) && Last(s) == x)
  {
    var front, n := Front(s), |s| - 1;
    if Twice(front, x) {
      var i, j :| 0 <= i < j < n && front[i] == x && front[j] == x;
      assert s[i] == x && s[j] == x;
    }
    if x in front && Last(s) == x {
      var i :| 0 <= i < n && front[i] == x;
      assert s[i] == x && s[n] == x;
    }
    if Twice(s, x) {
      var i, j :| 0 <= i < j < |s| && s[i] == x && s[j] == x;
      assert front[i] == x;
      assert j < n ==> front[j] == x;
    }
  }

  lemma {:induction false} Occurrences<T>(s: seq<T>, x: T)
    ensures multiset(s)[x] >= 2 <==> exists i, j :: 0 <= i < j < |s| && s[i] == x && s[j] == x
  {
    if s != [] {
      Occurrences(Front(s), x);
      TwiceInFront(s, x);
      assert Twice(Front(s), x) <==> multiset(Front(s))[x] >= 2;
      assert Twice(s, x) <==> exists i, j :: 0 <= i < j < |s| && s[i] == x && s[j] == x;
      hide Twice;
      assert s == Front(s) + [Last(s)];
      assert multiset(s)[x] == multiset(Front(s))[x] + (if Last(s) == x then 1 else 0);
      assert x in Front(s) <==> multiset(Front(s))[x] >= 1;
    }
  }

  lemma UniqueNamesPermute(a: seq<Entry>, b: seq<Entry>)
    requires multiset(a) == multiset(b) && UniqueNames(a)
    ensures UniqueNames(b)
  {
    forall i, j | 0 <= i < j < |b| ensures b[i].fileName != b[j].fileName {
      Occurrences(b, b[i]);
      Occurrences(a, b[i]);
      assert b[i] in multiset(a) && b[j] in multiset(a);
      var k :| 0 <= k < |a| && a[k] == b[i];
      var m :| 0 <= m < |a| && a[m] == b[j];
    }
  }

  function Weight(e: Entry): nat {
    if e.IsDirectory() then 0 else e.uncompressedSize
  }

  lemma {:induction false} TotalWithout(b: seq<Entry>, i: nat)
    requires i < |b|
    ensures Total(b) == Total(b[..i] + b[i + 1..]) + Weight(b[i])
  {
    var n := |b| - 1;
    if i == n {
      assert b[..i] + b[i + 1..] == b[..n];
    } else {
      TotalWithout(b[..n], i);
      var rest := b[..i] + b[i + 1..];
      assert Front(rest) == b[..n][..i] + b[..n][i + 1..];
      assert Last(rest) == b[n];
    }
  }

  lemma RemoveAt<T>(s: seq<T>, i: nat)
    requires i < |s|
    ensures multiset(s) == multiset(s[..i] + s[i + 1..]) + multiset{s[i]}
  {
    assert s == s[..i] + ([s[i]] + s[i + 1..]);
  }

  lemma CancelOne<T>(m: multiset<T>, m': multiset<T>, x: T)
    requires m + multiset{x} == m' + multiset{x}
    ensures m == m'
  {
    assert m == (m + multiset{x}) - multiset{x};
    assert m' == (m' + multiset{x}) - multiset{x};
  }

  lemma {:induction false} TotalPermutes(a: seq<Entry>, b: seq<Entry>)
    requires multiset(a) == multiset(b)
    ensures Total(a) == Total(b)
  {
    if a == [] {
      assert |multiset(a)| == |multiset(b)|;
    } else {
      var n := |a| - 1;
      var i := IndexOf(b, a, n);
      RemoveAt(a, n);
      RemoveAt(b, i);
      assert a[..n] + a[n + 1..] == a[..n];
      CancelOne(multiset(a[..n]), multiset(b[..i] + b[i + 1..]), a[n]);
      TotalPermutes(a[..n], b[..i] + b[i + 1..]);
      TotalWithout(b, i);
    }
  }

  lemma IndexOf<T>(b: seq<T>, a: seq<T>, n: nat) returns (i: nat)
    requires n < |a| && multiset(a) == multiset(b)
    ensures i < |b| && b[i] == a[n]
  {
    assert a[n] in multiset(b);
    i :| 0 <= i < |b| && b[i] == a[n];
  }

  lemma SameMembers(a: seq<Entry>, b: seq<Entry>)
    requires multiset(a) == multiset(b)
    ensures forall e :: e in a <==> e in b
  {
    forall e ensures e in a <==> e in b {
      assert e in a <==> e in multiset(a);
      assert e in b <==> e in multiset(b);
    }
  }

  lemma FormatPermutes(a: seq<Entry>, b: seq<Entry>)
    requires multiset(a) == multiset(b) && WellFormed(a)
    ensures WellFormed(b)
  {
    SameMembers(a, b);
    UniqueNamesPermute(a, b);
    TotalPermutes(a, b);
  }

  /** Acceptance and what is found do not depend on the order of the central directory. */
  lemma OrderDoesNotMatter(a: seq<Entry>, b: seq<Entry>)
    requires multiset(a) == multiset(b)
    ensures WellFormed(a) <==> WellFormed(b)
    ensures forall d, m, d', m' ::
              WellFormed(a) && Holds(a, d, m) && Holds(b, d', m') ==> d == d' && m == m'
  {
    SameMembers(a, b);
    if WellFormed(a) { FormatPermutes(a, b); }
    if WellFormed(b) { FormatPermutes(b, a); }
    forall d, m, d', m' | WellFormed(a) && Holds(a, d, m) && Holds(b, d', m')
      ensures d == d' && m == m'
    {
      HoldsIsUnique(a, d, m, d', m');
    }
  }

  lemma HoldsIsUnique(a: seq<Entry>, d: Entry, m: map<string, Entry>, d': Entry, m': map<string, Entry>)
    requires UniqueNames(a) && Holds(a, d, m) && Holds(a, d', m')
    ensures d == d' && m == m'
  {
    forall k | k in m ensures k in m' && m[k] == m'[k] {
      assert ImageKeyOf(m[k].fileName).value == k;
    }
    forall k | k in m' ensures k in m {
      assert ImageKeyOf(m'[k].fileName).value == k;
    }
  }

  // ---------------------------------------------------------------- the writer

  /** The distinct well-formed image keys, in the order a JavaScript Set keeps them. A product's
      imageKey may be absent or no string. */
  function SnapshotImageKeys(products: seq<Option<string>>): (keys: seq<string>)
    ensures Distinct(keys)
    ensures forall k :: k in keys <==> Some(k) in products && IsImageKey(k)
  {
    if products == [] then []
    else
      var keys, p := SnapshotImageKeys(Front(products)), Last(products);
      if p.Some? && IsImageKey(p.value) && p.value !in keys then keys + [p.value] else keys
  }

  /** The keys are those of the products that name them first, in that order. */
  lemma {:induction false} KeysInOrder(products: seq<Option<string>>) returns (at: seq<nat>)
    ensures Ascending(at) && |at| == |SnapshotImageKeys(products)|
    ensures forall i: nat :: i in at <==>
              i < |products| && products[i].Some? && IsImageKey(products[i].value) && FirstAt(products, i)
    ensures forall j :: 0 <= j < |at| ==> at[j] < |products| && products[at[j]] == Some(SnapshotImageKeys(products)[j])
  {
    hide Ascending;
    hide IsImageKey;
    hide FirstAt;
    at := [];
    if products == [] {
      NothingAscends();
    } else {
      var n := |products| - 1;
      at := KeysInOrder(Front(products));
      FirstAtInFront(products);
      NextKey(products);
      hide SnapshotImageKeys;
      if FirstAt(products, n) && products[n].Some? && IsImageKey(products[n].value) {
        AscendingNext(at, n);
        at := at + [n];
      }
    }
  }

  lemma NextKey(products: seq<Option<string>>)
    requires products != []
    ensures var p := Last(products);
            SnapshotImageKeys(products) ==
            SnapshotImageKeys(Front(products)) +
            (if p.Some? && IsImageKey(p.value) && p !in Front(products) then [p.value] else [])
  {
  }

  /** snapshotImageKeys. */
  method CollectImageKeys(products: seq<Option<string>>) returns (keys: seq<string>)
    ensures keys == SnapshotImageKeys(products)
  {
    keys := [];
    for i := 0 to |products|
      invariant keys == SnapshotImageKeys(products[..i])
    {
      assert products[..i + 1][..i] == products[..i];
      var p := products[i];
      if p.Some? && IsImageKey(p.value) && p.value !in keys {
        keys := keys + [p.value];
      }
    }
    assert products[..|products|] == products;
  }

  function OnDisk(keys: seq<string>, disk: map<string, nat>): (found: seq<string>)
    ensures forall k :: k in found <==> k in keys && k in disk
    ensures |found| <= |keys|
    ensures Distinct(keys) ==> Distinct(found)
  {
    if keys == [] then []
    else
      var found, k := OnDisk(Front(keys), disk), Last(keys);
      assert keys == Front(keys) + [k];
      if k in disk then found + [k] else found
  }

  function ImageEntry(key: string, disk: map<string, nat>): Entry {
    Entry(ImageName(key), false, if key in disk then disk[key] else 0)
  }

  /** The entry list of an export: data.json, then the images that are there. */
  function ExportEntries(jsonBytes: nat, found: seq<string>, disk: map<string, nat>): seq<Entry> {
    [Entry(ZIP_DATA_JSON, false, jsonBytes)] + seq(|found|, i requires 0 <= i < |found| => ImageEntry(found[i], disk))
  }

  /** The images are written in the order of the keys. */
  lemma {:induction false} OnDiskInOrder(keys: seq<string>, disk: map<string, nat>) returns (at: seq<nat>)
    ensures Ascending(at) && |at| == |OnDisk(keys, disk)|
    ensures forall i: nat :: i in at <==> i < |keys| && keys[i] in disk
    ensures forall j :: 0 <= j < |at| ==> at[j] < |keys| && keys[at[j]] == OnDisk(keys, disk)[j]
  {
    hide Ascending;
    at := [];
    if keys == [] {
      NothingAscends();
    } else {
      var n := |keys| - 1;
      var before := OnDiskInOrder(Front(keys), disk);
      assert OnDisk(keys, disk) == OnDisk(Front(keys), disk) + (if keys[n] in disk then [keys[n]] else []);
      hide OnDisk;
      AscendingNext(before, n);
      at := if keys[n] in disk then before + [n] else before;
      forall i: nat ensures i in at <==> i < |keys| && keys[i] in disk {
        if i < n {
          assert Front(keys)[i] == keys[i];
        }
      }
      forall j | 0 <= j < |at| ensures at[j] < |keys| && keys[at[j]] == OnDisk(keys, disk)[j] {
        if j < |before| {
          assert Front(keys)[before[j]] == keys[before[j]];
        }
      }
    }
  }

  lemma OnDiskNext(keys: seq<string>, i: nat, disk: map<string, nat>)
    requires i < |keys|
    ensures OnDisk(keys[..i + 1], disk) == OnDisk(keys[..i], disk) + (if keys[i] in disk then [keys[i]] else [])
  {
    assert keys[..i + 1][..i] == keys[..i];
  }

  lemma ExportAppends(jsonBytes: nat, found: seq<string>, disk: map<string, nat>, key: string)
    ensures ExportEntries(jsonBytes, found + [key], disk) ==
            ExportEntries(jsonBytes, found, disk) + [ImageEntry(key, disk)]
  {
  }

  /** writeExportZip up to the bytes: `disk` holds the preview files' sizes. */
  method WriteEntries(jsonBytes: nat, products: seq<Option<string>>, disk: map<string, nat>)
    returns (entries: seq<Entry>, images: nat, missingImages: nat)
    ensures entries == ExportEntries(jsonBytes, OnDisk(SnapshotImageKeys(products), disk), disk)
    ensures images == |OnDisk(SnapshotImageKeys(products), disk)|
    ensures images + missingImages == |SnapshotImageKeys(products)|
  {
    hide SnapshotImageKeys;
    hide OnDisk;
    var keys := CollectImageKeys(products);
    assert OnDisk(keys[..0], disk) == [];
    entries := [Entry(ZIP_DATA_JSON, false, jsonBytes)];
    images, missingImages := 0, 0;
    for i := 0 to |keys|
      invariant images + missingImages == i
      invariant images == |OnDisk(keys[..i], disk)|
      invariant entries == ExportEntries(jsonBytes, OnDisk(keys[..i], disk), disk)
    {
      OnDiskNext(keys, i, disk);
      ghost var found := OnDisk(keys[..i], disk);
      ExportAppends(jsonBytes, found, disk, keys[i]);
      if keys[i] !in disk {
        missingImages := missingImages + 1;
        continue;
      }
      entries := entries + [Entry(ImageName(keys[i]), false, disk[keys[i]])];
      images := images + 1;
    }
    assert keys[..|keys|] == keys;
  }

  function SumOf(found: seq<string>, disk: map<string, nat>): nat {
    if found == [] then 0
    else SumOf(Front(found), disk) + ImageEntry(Last(found), disk).uncompressedSize
  }

  lemma {:induction false} ExportTotal(jsonBytes: nat, found: seq<string>, disk: map<string, nat>)
    requires forall k :: k in found ==> IsImageKey(k)
    ensures Total(ExportEntries(jsonBytes, found, disk)) == jsonBytes + SumOf(found, disk)
  {
    var entries := ExportEntries(jsonBytes, found, disk);
    if found == [] {
      assert entries[..0] == [];
    } else {
      var n := |found| - 1;
      ExportTotal(jsonBytes, found[..n], disk);
      assert Front(entries) == ExportEntries(jsonBytes, found[..n], disk);
      ImageKeyOfName(found[n]);
    }
  }

  /** The sizes and the count under which the reader takes the writer's file back. */
  ghost predicate WithinLimits(jsonBytes: nat, found: seq<string>, disk: map<string, nat>) {
    && jsonBytes <= MAX_DATA_JSON_BYTES
    && (forall k :: k in found ==> k in disk && disk[k] <= MAX_IMAGE_BYTES)
    && jsonBytes + SumOf(found, disk) <= MAX_TOTAL_BYTES
    && 1 + |found| <= MAX_ENTRIES
  }

  /** Entry i + 1 of an export is the image of the i-th key. */
  lemma ExportedImage(jsonBytes: nat, found: seq<string>, disk: map<string, nat>, i: nat)
    requires i < |found| && IsImageKey(found[i])
    ensures var e := ExportEntries(jsonBytes, found, disk)[i + 1];
            && e == ImageEntry(found[i], disk)
            && ImageKeyOf(e.fileName) == Some(found[i]) && e.fileName != ZIP_DATA_JSON && !e.IsDirectory()
  {
    ImageKeyOfName(found[i]);
  }

  lemma ExportNames(jsonBytes: nat, found: seq<string>, disk: map<string, nat>)
    requires forall k :: k in found ==> IsImageKey(k)
    requires Distinct(found)
    ensures UniqueNames(ExportEntries(jsonBytes, found, disk))
  {
    var entries := ExportEntries(jsonBytes, found, disk);
    forall i, j | 0 <= i < j < |entries| ensures entries[i].fileName != entries[j].fileName {
      ExportedImage(jsonBytes, found, disk, j - 1);
      if i > 0 {
        ExportedImage(jsonBytes, found, disk, i - 1);
        assert found[i - 1] != found[j - 1];
      }
    }
  }

  lemma ExportFits(jsonBytes: nat, found: seq<string>, disk: map<string, nat>)
    requires forall k :: k in found ==> IsImageKey(k) && k in disk
    ensures (forall e :: e in ExportEntries(jsonBytes, found, disk) ==> EntryFits(e)) <==>
            jsonBytes <= MAX_DATA_JSON_BYTES && forall k :: k in found ==> disk[k] <= MAX_IMAGE_BYTES
  {
    var entries := ExportEntries(jsonBytes, found, disk);
    forall i | 0 <= i < |found|
      ensures EntryFits(entries[i + 1]) <==> disk[found[i]] <= MAX_IMAGE_BYTES
    {
      ExportedImage(jsonBytes, found, disk, i);
    }
    assert EntryFits(entries[0]) <==> jsonBytes <= MAX_DATA_JSON_BYTES by {
      assert entries[0].fileName[|entries[0].fileName| - 1] == 'n';
    }
    if forall e :: e in entries ==> EntryFits(e) {
      forall k | k in found ensures disk[k] <= MAX_IMAGE_BYTES {
        var i :| 0 <= i < |found| && found[i] == k;
        assert entries[i + 1] in entries;
      }
      assert entries[0] in entries;
    }
  }

  /** The reader accepts an export if and only if its sizes and its number of entries are within
      the reader's limits. */
  lemma ExportIsAccepted(jsonBytes: nat, products: seq<Option<string>>, disk: map<string, nat>)
    ensures var found := OnDisk(SnapshotImageKeys(products), disk);
            ReaderAccepts(ExportEntries(jsonBytes, found, disk)) <==> WithinLimits(jsonBytes, found, disk)
  {
    var found := OnDisk(SnapshotImageKeys(products), disk);
    ExportTotal(jsonBytes, found, disk);
    ExportNames(jsonBytes, found, disk);
    ExportFits(jsonBytes, found, disk);
    assert ExportEntries(jsonBytes, found, disk)[0].fileName == ZIP_DATA_JSON;
  }

  // ---------------------------------------------------------------- reading images

  /** new Set(wanted), in insertion order. */
  function WithoutRepeats(wanted: seq<string>): (keys: seq<string>)
    ensures Distinct(keys)
    ensures forall k :: k in keys <==> k in wanted
  {
    if wanted == [] then []
    else
      var keys, k := WithoutRepeats(Front(wanted)), Last(wanted);
      assert wanted == Front(wanted) + [k];
      if k in keys then keys else keys + [k]
  }

  /** The distinct keys are those that are wanted for the first time, in that order. */
  lemma {:induction false} WantedInOrder(wanted: seq<string>) returns (at: seq<nat>)
    ensures Ascending(at) && |at| == |WithoutRepeats(wanted)|
    ensures forall i: nat :: i in at <==> FirstAt(wanted, i)
    ensures forall j :: 0 <= j < |at| ==> at[j] < |wanted| && wanted[at[j]] == WithoutRepeats(wanted)[j]
  {
    hide Ascending;
    at := [];
    if wanted == [] {
      NothingAscends();
    } else {
      hide FirstAt;
      var n := |wanted| - 1;
      at := WantedInOrder(Front(wanted));
      FirstAtInFront(wanted);
      NextWanted(wanted);
      NotBeyond(wanted);
      hide WithoutRepeats;
      if FirstAt(wanted, n) {
        AscendingNext(at, n);
        at := at + [n];
      }
    }
  }

  lemma NotBeyond(wanted: seq<string>)
    ensures forall i: nat :: FirstAt(wanted, i) ==> i < |wanted|
  {
  }

  lemma NextWanted(wanted: seq<string>)
    requires wanted != []
    ensures WithoutRepeats(wanted) ==
            WithoutRepeats(Front(wanted)) + (if Last(wanted) !in Front(wanted) then [Last(wanted)] else [])
  {
  }

  /** The entry that holds the image of a key. */
  function ImageOf(entries: seq<Entry>, k: string): (image: Option<Entry>)
    ensures image.Some? ==> image.value in entries && ImageKeyOf(image.value.fileName) == Some(k)
    ensures image.None? ==> forall e :: e in entries ==> ImageKeyOf(e.fileName) != Some(k)
  {
    if entries == [] then None
    else if ImageKeyOf(Last(entries).fileName) == Some(k) then Some(Last(entries))
    else ImageOf(Front(entries), k)
  }

  lemma ImageOfKey(entries: seq<Entry>, images: map<string, Entry>, k: string)
    requires UniqueNames(entries) && ImagesOf(entries, images)
    ensures ImageOf(entries, k) == if k in images then Some(images[k]) else None
  {
    hide ImageOf;
    var image := ImageOf(entries, k);
    if image.Some? {
      assert image.value.fileName == images[k].fileName;
    }
  }

  /** Each of the keys that the file holds, with its image, in the order of the keys. */
  function Served(entries: seq<Entry>, keys: seq<string>): seq<(string, Entry)> {
    if keys == [] then []
    else
      var k := Last(keys);
      var image := ImageOf(entries, k);
      Served(entries, Front(keys)) + (if image.Some? then [(k, image.value)] else [])
  }

  lemma {:induction false} ServedHas(entries: seq<Entry>, keys: seq<string>, k: string, e: Entry)
    ensures (k, e) in Served(entries, keys) <==> k in keys && ImageOf(entries, k) == Some(e)
  {
    hide ImageOf;
    if keys != [] {
      ServedHas(entries, Front(keys), k, e);
      assert keys == Front(keys) + [Last(keys)];
    }
  }

  lemma {:induction false} ServedOnce(entries: seq<Entry>, keys: seq<string>)
    requires Distinct(keys)
    ensures forall i, j :: 0 <= i < j < |Served(entries, keys)| ==>
                             Served(entries, keys)[i].0 != Served(entries, keys)[j].0
  {
    hide ImageOf;
    if keys != [] {
      var front, k := Front(keys), Last(keys);
      ServedOnce(entries, front);
      forall i | 0 <= i < |Served(entries, front)| ensures Served(entries, front)[i].0 != k {
        ServedHas(entries, front, Served(entries, front)[i].0, Served(entries, front)[i].1);
      }
    }
  }

  /** What is served are the file's images of the keys, each once and none left out. */
  lemma ServedIsComplete(entries: seq<Entry>, keys: seq<string>)
    requires UniqueNames(entries) && Distinct(keys)
    ensures var served := Served(entries, keys);
            && (forall i, j :: 0 <= i < j < |served| ==> served[i].0 != served[j].0)
            && (forall i :: 0 <= i < |served| ==>
                  && served[i].0 in keys && served[i].1 in entries
                  && served[i].1.fileName == ImageName(served[i].0))
            && (forall e :: e in entries && ImageKeyOf(e.fileName).Some? && ImageKeyOf(e.fileName).value in keys ==>
                  (ImageKeyOf(e.fileName).value, e) in served)
  {
    hide ImageOf;
    hide Served;
    var served := Served(entries, keys);
    ServedOnce(entries, keys);
    forall i | 0 <= i < |served|
      ensures served[i].0 in keys && served[i].1 in entries && served[i].1.fileName == ImageName(served[i].0)
    {
      ServedHas(entries, keys, served[i].0, served[i].1);
    }
    forall e | e in entries && ImageKeyOf(e.fileName).Some? && ImageKeyOf(e.fileName).value in keys
      ensures (ImageKeyOf(e.fileName).value, e) in served
    {
      var k := ImageKeyOf(e.fileName).value;
      assert ImageOf(entries, k).value.fileName == e.fileName;
      ServedHas(entries, keys, k, e);
    }
  }

  /** The images are served in the order of the keys. */
  lemma {:induction false} ServedInOrder(entries: seq<Entry>, keys: seq<string>) returns (at: seq<nat>)
    ensures Ascending(at) && |at| == |Served(entries, keys)|
    ensures forall i: nat :: i in at <==> i < |keys| && ImageOf(entries, keys[i]).Some?
    ensures forall j :: 0 <= j < |at| ==> at[j] < |keys| && keys[at[j]] == Served(entries, keys)[j].0
  {
    hide Ascending;
    hide ImageOf;
    at := [];
    if keys == [] {
      NothingAscends();
    } else {
      var n := |keys| - 1;
      var before := ServedInOrder(entries, Front(keys));
      var image := ImageOf(entries, keys[n]);
      assert Served(entries, keys) ==
             Served(entries, Front(keys)) + (if image.Some? then [(keys[n], image.value)] else []);
      hide Served;
      AscendingNext(before, n);
      at := if ImageOf(entries, keys[n]).Some? then before + [n] else before;
      forall i: nat ensures i in at <==> i < |keys| && ImageOf(entries, keys[i]).Some? {
        if i < n {
          assert Front(keys)[i] == keys[i];
        }
      }
      forall j | 0 <= j < |at| ensures at[j] < |keys| && keys[at[j]] == Served(entries, keys)[j].0 {
        if j < |before| {
          assert Front(keys)[before[j]] == keys[before[j]];
        }
      }
    }
  }

  lemma ExportedImageOf(jsonBytes: nat, found: seq<string>, disk: map<string, nat>, k: string)
    requires forall x :: x in found ==> IsImageKey(x)
    ensures ImageOf(ExportEntries(jsonBytes, found, disk), k) == if k in found then Some(ImageEntry(k, disk)) else None
  {
    hide ImageOf;
    hide ImageKeyOf;
    var entries := ExportEntries(jsonBytes, found, disk);
    var image := ImageOf(entries, k);
    assert ImageKeyOf(ZIP_DATA_JSON).None?;
    if k in found {
      var i :| 0 <= i < |found| && found[i] == k;
      ExportedImage(jsonBytes, found, disk, i);
      assert entries[i + 1] in entries;
    }
    if image.Some? {
      var j :| 0 <= j < |entries| && entries[j] == image.value;
      assert j > 0;
      ExportedImage(jsonBytes, found, disk, j - 1);
    }
  }

  /** What the reader finds in an accepted export: the data file, and exactly the keys the
      products name whose preview was on disk, each with its size. */
  lemma ExportReadsBack(jsonBytes: nat, products: seq<Option<string>>, disk: map<string, nat>,
                        dataJson: Entry, images: map<string, Entry>)
    requires Holds(ExportEntries(jsonBytes, OnDisk(SnapshotImageKeys(products), disk), disk), dataJson, images)
    ensures dataJson.uncompressedSize == jsonBytes
    ensures forall k :: k in images <==> Some(k) in products && IsImageKey(k) && k in disk
    ensures forall k :: k in images ==> images[k].uncompressedSize == disk[k]
  {
    hide OnDisk;
    hide SnapshotImageKeys;
    hide ImageOf;
    hide ImagesOf;
    hide UniqueNames;
    var found := OnDisk(SnapshotImageKeys(products), disk);
    var entries := ExportEntries(jsonBytes, found, disk);
    ExportNames(jsonBytes, found, disk);
    forall k ensures k in images <==> k in found
             ensures k in images ==> images[k] == ImageEntry(k, disk)
    {
      ImageOfKey(entries, images, k);
      ExportedImageOf(jsonBytes, found, disk, k);
    }
    forall i | 0 < i < |entries| ensures entries[i].fileName != ZIP_DATA_JSON {
      ExportedImage(jsonBytes, found, disk, i - 1);
    }
  }

  /** Export, then import: the images served from an accepted export are exactly those asked for
      that the products name and that were on disk, each with its size. */
  lemma ExportServes(jsonBytes: nat, products: seq<Option<string>>, disk: map<string, nat>, wanted: seq<string>,
                     k: string, e: Entry)
    ensures var entries := ExportEntries(jsonBytes, OnDisk(SnapshotImageKeys(products), disk), disk);
            (k, e) in Served(entries, WithoutRepeats(wanted)) <==>
              && k in wanted && Some(k) in products && IsImageKey(k) && k in disk
              && e == Entry(ImageName(k), false, disk[k])
  {
    hide ImageOf;
    hide OnDisk;
    hide SnapshotImageKeys;
    hide WithoutRepeats;
    var found := OnDisk(SnapshotImageKeys(products), disk);
    ServedHas(ExportEntries(jsonBytes, found, disk), WithoutRepeats(wanted), k, e);
    ExportedImageOf(jsonBytes, found, disk, k);
  }

  /** forEachZipImage with withZip's checks: `served` are the calls of onImage, in order. The
      count is refused before an entry is looked at; nothing is served from a bad file. */
  method ForEachZipImage(entries: seq<Entry>, wanted: seq<string>) returns (ok: bool, served: seq<(string, Entry)>)
    ensures ok <==> ReaderAccepts(entries)
    ensures ok ==> served == Served(entries, WithoutRepeats(wanted))
    ensures !ok ==> served == []
    ensures ok ==>
              && (forall i, j :: 0 <= i < j < |served| ==> served[i].0 != served[j].0)
              && (forall i :: 0 <= i < |served| ==>
                    && served[i].0 in wanted && served[i].1 in entries
                    && served[i].1.fileName == ImageName(served[i].0))
              && (forall e :: e in entries && ImageKeyOf(e.fileName).Some? && ImageKeyOf(e.fileName).value in wanted ==>
                    (ImageKeyOf(e.fileName).value, e) in served)
  {
    served := [];
    if |entries| > MAX_ENTRIES {
      return false, [];
    }
    var checked := CheckEntries(entries);
    if checked.BackupZipInvalid? {
      return false, [];
    }
    var keys := WithoutRepeats(wanted);
    for i := 0 to |keys|
      invariant served == Served(entries, keys[..i])
    {
      assert keys[..i + 1] == keys[..i] + [keys[i]];
      ImageOfKey(entries, checked.images, keys[i]);
      if keys[i] !in checked.images {
        continue;
      }
      served := served + [(keys[i], checked.images[keys[i]])];
    }
    assert keys[..|keys|] == keys;
    ok := true;
    ServedIsComplete(entries, keys);
  }

  // ---------------------------------------------------------------- copying the bytes

  lemma {:induction false} ConcatPrefix<T>(chunks: seq<seq<T>>, i: nat)
    requires i <= |chunks|
    ensures Concat(chunks[..i]) <= Concat(chunks)
  {
    if i == |chunks| {
      assert chunks[..i] == chunks;
    } else {
      ConcatPrefix(Front(chunks), i);
      assert Front(chunks)[..i] == chunks[..i];
    }
  }

  /** The copy loop of writeExportZip. `taken(c, n)` is what the c-th write call makes of n bytes;
      it may be fewer than asked. The copy succeeds exactly when every write it asked for took
      something, and then the file is whole; otherwise it is a proper beginning of the output and
      no write was asked for after the one that took nothing. */
  method CopyChunks<T>(chunks: seq<seq<T>>, taken: (nat, nat) -> int)
    returns (ok: bool, file: seq<T>, sizeBytes: nat, asked: seq<nat>)
    requires forall c, n :: taken(c, n) <= n
    ensures ok <==> forall c :: 0 <= c < |asked| ==> taken(c, asked[c]) > 0
    ensures ok ==> file == Concat(chunks) && sizeBytes == |file|
    ensures !ok ==> file < Concat(chunks)
    ensures forall c :: 0 <= c < |asked| - 1 ==> taken(c, asked[c]) > 0
  {
    file, sizeBytes, asked := [], 0, [];
    for i := 0 to |chunks|
      invariant file == Concat(chunks[..i]) && sizeBytes == |file|
      invariant forall c :: 0 <= c < |asked| ==> taken(c, asked[c]) > 0
    {
      var chunk := chunks[i];
      assert chunks[..i + 1][..i] == chunks[..i];
      ConcatPrefix(chunks, i + 1);
      sizeBytes := sizeBytes + |chunk|;
      var off := 0;
      while off < |chunk|
        invariant 0 <= off <= |chunk|
        invariant file == Concat(chunks[..i]) + chunk[..off]
        invariant forall c :: 0 <= c < |asked| ==> taken(c, asked[c]) > 0
      {
        var bytesWritten := taken(|asked|, |chunk| - off);
        asked := asked + [|chunk| - off];
        if bytesWritten <= 0 {
          assert file < Concat(chunks[..i + 1]);
          assert taken(|asked| - 1, Last(asked)) <= 0;
          return false, file, sizeBytes, asked;
        }
        file := file + chunk[off..off + bytesWritten];
        off := off + bytesWritten;
      }
    }
    assert chunks[..|chunks|] == chunks;
    ok := true;
  }
}
