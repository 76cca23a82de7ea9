/**
 * The registry generator: it validates the front matter of every skill's
 * SKILL.md, hashes each skill directory and writes one record per skill,
 * refusing to write anything when a skill fails validation.
 *
 * The file system is given as values: the listing of the skills directory
 * (absent when there is no such directory), each entry's SKILL.md text and
 * the tree `os.walk` reports. The YAML loader and the SHA-256 hex digest are
 * parameters.
 */
module Registry {
  import opened Wrappers
  import opened Text
  import opened Ordering

  newtype byte = x: int | 0 <= x < 256

  /** A value `yaml.safe_load` returns (mappings with string keys). */
  datatype Yaml =
    | YNull
    | YBool(b: bool)
    | YInt(i: int)
    | YStr(s: string)
    | YList(items: seq<Yaml>)
    | YMap(fields: map<string, Yaml>)

  /** Python truthiness of a loaded value. */
  predicate Truthy(v: Yaml) {
    match v
    case YNull => false
    case YBool(b) => b
    case YInt(i) => i != 0
    case YStr(s) => s != []
    case YList(items) => items != []
    case YMap(fields) => fields != map[]
  }

  type FrontMatter = map<string, Yaml>

  const RequiredFields: seq<string> := ["name", "description", "version", "author"]

  const Delimiter: string := "---"

  // ---------------------------------------------------------------------
  // String search: str.startswith, str.find and str.split(sep, maxsplit)
  // ---------------------------------------------------------------------

  predicate StartsWith(s: string, prefix: string) {
    |prefix| <= |s| && s[..|prefix|] == prefix
  }

  /** pat occurs in s at position j. */
  predicate OccursAt(s: string, pat: string, j: int) {
    0 <= j && j + |pat| <= |s| && s[j..j + |pat|] == pat
  }

  /** The leftmost occurrence of pat in s at or after `from`. */
  function Find(s: string, pat: string, from: nat): (r: Option<nat>)
    requires from <= |s|
    ensures r.Some? ==> from <= r.value && OccursAt(s, pat, r.value)
    ensures forall j :: from <= j && (r.None? || j < r.value) ==> !OccursAt(s, pat, j)
    decreases |s| - from
  {
    if OccursAt(s, pat, from) then Some(from)
    else if from == |s| then None
    else Find(s, pat, from + 1)
  }

  /** Appending text after the first occurrence does not move it. */
  lemma {:induction false} FindInPrefix(s: string, t: string, pat: string, from: nat)
    requires from <= |s|
    requires Find(s, pat, from).Some?
    ensures Find(s + t, pat, from) == Find(s, pat, from)
    decreases |s| - from
  {
    assert OccursAt(s, pat, from) ==> (s + t)[from..from + |pat|] == s[from..from + |pat|];
    if !OccursAt(s, pat, from) {
      assert !OccursAt(s + t, pat, from) by {
        if from + |pat| <= |s| {
          assert (s + t)[from..from + |pat|] == s[from..from + |pat|];
        }
      }
      FindInPrefix(s, t, pat, from + 1);
    }
  }

  /** The first occurrence is still the first once the text is cut right after it. */
  lemma FindUpToFirst(s: string, pat: string, i: nat)
    requires Find(s, pat, 0) == Some(i)
    ensures Find(s[..i] + pat, pat, 0) == Some(i)
  {
    var u := s[..i + |pat|];
    assert s[..i] + pat == u;
    assert u[i..i + |pat|] == s[i..i + |pat|];
    assert OccursAt(u, pat, i);
    var r := Find(u, pat, 0);
    assert r.Some? && r.value <= i;
    var j := r.value;
    assert u[j..j + |pat|] == s[j..j + |pat|];
    assert OccursAt(s, pat, j);
  }

  /** `sep.join(parts)`. */
  function Join(parts: seq<string>, sep: string): string
    requires parts != []
  {
    if |parts| == 1 then parts[0] else parts[0] + sep + Join(parts[1..], sep)
  }

  /** `s.split(sep, n)`: cut s at the first n (non-overlapping) occurrences of sep. */
  function SplitN(s: string, sep: string, n: nat): (parts: seq<string>)
    requires sep != []
    ensures 1 <= |parts| <= n + 1
    ensures Join(parts, sep) == s
    ensures CutsAtFirst(parts, sep, n)
    decreases n
  {
    if n == 0 then [s]
    else
      match Find(s, sep, 0)
      case None => [s]
      case Some(i) =>
        var rest := SplitN(s[i + |sep|..], sep, n - 1);
        JoinAtFirst(s, sep, i, rest, [s[..i]] + rest);
        CutAtFirst(s, sep, i, n, rest, [s[..i]] + rest);
        [s[..i]] + rest
  }

  /**
   * Each piece but the last is cut at the first separator after it, and when fewer
   * than n cuts were made the last piece holds no separator at all.
   */
  predicate CutsAtFirst(parts: seq<string>, sep: string, n: nat)
    requires parts != []
  {
    && (forall k :: 0 <= k < |parts| - 1 ==> Find(parts[k] + sep, sep, 0) == Some(|parts[k]|))
    && (|parts| < n + 1 ==> Find(parts[|parts| - 1], sep, 0).None?)
  }

  /** The piece before an occurrence, the separator and the join of the rest give back the text. */
  lemma JoinAtFirst(s: string, sep: string, i: nat, rest: seq<string>, parts: seq<string>)
    requires OccursAt(s, sep, i) && rest != [] && Join(rest, sep) == s[i + |sep|..]
    requires parts == [s[..i]] + rest
    ensures Join(parts, sep) == s
  {
    assert s == s[..i] + sep + s[i + |sep|..];
    assert parts[1..] == rest;
  }

  /** Cutting at the first occurrence keeps every piece but the last followed by its first separator. */
  lemma CutAtFirst(s: string, sep: string, i: nat, n: nat, rest: seq<string>, parts: seq<string>)
    requires Find(s, sep, 0) == Some(i) && n >= 1 && 1 <= |rest| <= n
    requires CutsAtFirst(rest, sep, n - 1)
    requires parts == [s[..i]] + rest
    ensures CutsAtFirst(parts, sep, n)
  {
    forall k | 0 <= k < |parts| - 1
      ensures Find(parts[k] + sep, sep, 0) == Some(|parts[k]|)
    {
      if k == 0 {
        FindUpToFirst(s, sep, i);
      } else {
        assert parts[k] == rest[k - 1];
      }
    }
    assert parts[|parts| - 1] == rest[|rest| - 1];
  }

  // ---------------------------------------------------------------------
  // parse_skill_md
  // ---------------------------------------------------------------------

  /** Why a SKILL.md was rejected (each is one of the script's error messages). */
  datatype ParseError =
    | NoSkillMd
    | MissingFrontMatter
    | InvalidFormat
    | YamlError
    | NotAMapping
    | MissingField(field: string)

  /** The first of `fields` that fm lacks. */
  function FirstMissing(fm: FrontMatter, fields: seq<string>): (r: Option<string>)
    ensures r.None? <==> forall k :: 0 <= k < |fields| ==> fields[k] in fm
    ensures r.Some? ==> exists k :: 0 <= k < |fields| && fields[k] == r.value && r.value !in fm &&
                                    forall j :: 0 <= j < k ==> fields[j] in fm
  {
    if fields == [] then None
    else if fields[0] !in fm then Some(fields[0])
    else
      var r := FirstMissing(fm, fields[1..]);
      assert forall j :: 1 <= j < |fields| ==> fields[j] == fields[1..][j - 1];
      assert r.Some? ==> exists k :: 1 <= k < |fields| && fields[k] == r.value && r.value !in fm &&
                                     forall j :: 0 <= j < k ==> fields[j] in fm by {
        if r.Some? {
          var k :| 0 <= k < |fields[1..]| && fields[1..][k] == r.value && r.value !in fm &&
                   forall j :: 0 <= j < k ==> fields[1..][j] in fm;
          assert fields[k + 1] == r.value;
        }
      }
      r
  }

  /** The checks made on the loaded front matter. */
  function CheckFrontMatter(y: Yaml): (r: Result<FrontMatter, ParseError>)
    ensures r.Success? <==> y.YMap? && forall f :: f in RequiredFields ==> f in y.fields
    ensures r.Success? ==> r.value == y.fields
  {
    if !y.YMap? then Failure(NotAMapping)
    else
      match FirstMissing(y.fields, RequiredFields)
      case Some(f) => Failure(MissingField(f))
      case None => Success(y.fields)
  }

  /**
   * `parse_skill_md`: the front matter of a SKILL.md (None when the file is
   * absent), or the reason it is rejected.
   */
  function ParseSkillMd(content: Option<string>, loadYaml: string -> Option<Yaml>): (r: Result<FrontMatter, ParseError>)
    ensures r.Success? ==> content.Some? && StartsWith(content.value, Delimiter)
    ensures r.Success? ==> forall f :: f in RequiredFields ==> f in r.value
  {
    match content
    case None => Failure(NoSkillMd)
    case Some(text) =>
      if !StartsWith(text, Delimiter) then Failure(MissingFrontMatter)
      else
        var parts := SplitN(text, Delimiter, 2);
        if |parts| < 3 then Failure(InvalidFormat)
        else
          match loadYaml(parts[1])
          case None => Failure(YamlError)
          case Some(y) => CheckFrontMatter(y)
  }

  /** The front matter of `---` + fm + `---` + rest is fm whenever fm and its closing `---` hold no earlier `---`. */
  predicate ClosedAtEnd(fm: string) {
    forall j :: 0 <= j < |fm| ==> !OccursAt(fm + Delimiter, Delimiter, j)
  }

  /**
   * Only the text between the opening and the closing delimiter is loaded;
   * whatever follows the closing delimiter has no influence.
   */
  lemma FrontMatterIsBetweenDelimiters(fm: string, rest: string, loadYaml: string -> Option<Yaml>)
    requires ClosedAtEnd(fm)
    ensures ParseSkillMd(Some(Delimiter + fm + Delimiter + rest), loadYaml) ==
            match loadYaml(fm)
            case None => Failure(YamlError)
            case Some(y) => CheckFrontMatter(y)
  {
    var text := Delimiter + fm + Delimiter + rest;
    assert OccursAt(text, Delimiter, 0);
    assert Find(text, Delimiter, 0) == Some(0);
    var after := text[|Delimiter|..];
    assert after == (fm + Delimiter) + rest;
    assert OccursAt(fm + Delimiter, Delimiter, |fm|);
    assert Find(fm + Delimiter, Delimiter, 0) == Some(|fm|);
    FindInPrefix(fm + Delimiter, rest, Delimiter, 0);
    assert after[..|fm|] == fm;
    var parts := SplitN(text, Delimiter, 2);
    assert parts[1] == fm;
  }

  /** A SKILL.md that opens with `---` but never closes it is rejected as malformed. */
  lemma UnclosedFrontMatterRejected(tail: string, loadYaml: string -> Option<Yaml>)
    requires Find(tail, Delimiter, 0).None?
    ensures ParseSkillMd(Some(Delimiter + tail), loadYaml) == Failure(InvalidFormat)
  {
    var text := Delimiter + tail;
    assert OccursAt(text, Delimiter, 0);
    assert text[|Delimiter|..] == tail;
  }

  /** A SKILL.md that does not open with `---` is rejected. */
  lemma MissingOpeningRejected(text: string, loadYaml: string -> Option<Yaml>)
    requires !StartsWith(text, Delimiter)
    ensures ParseSkillMd(Some(text), loadYaml) == Failure(MissingFrontMatter)
  {
  }

  /**
   * Acceptance, both ways: the front matter is accepted exactly when the text
   * opens with `---`, a closing `---` follows, the text between loads as a
   * mapping and the mapping has the four required fields; it is then returned
   * unchanged, extra keys included.
   */
  lemma ParseSkillMdAccepts(text: string, loadYaml: string -> Option<Yaml>, fm: FrontMatter)
    ensures ParseSkillMd(Some(text), loadYaml) == Success(fm) <==>
      && StartsWith(text, Delimiter)
      && |SplitN(text, Delimiter, 2)| == 3
      && loadYaml(SplitN(text, Delimiter, 2)[1]) == Some(YMap(fm))
      && forall f :: f in RequiredFields ==> f in fm
  {
  }

  // ---------------------------------------------------------------------
  // Records
  // ---------------------------------------------------------------------

  /** One entry of the `skills` list of registry.json. */
  datatype Record = Record(
    id: Yaml,
    description: string,
    version: Yaml,
    author: Yaml,
    contentHash: string,
    requiresEnv: Yaml,
    hasExecutionManifest: bool)

  /** `requires_env if requires_env else []`, with `requires_env = fm.get("requires_env", [])`. */
  function RequiresEnv(fm: FrontMatter): (v: Yaml)
    ensures "requires_env" in fm && Truthy(fm["requires_env"]) ==> v == fm["requires_env"]
    ensures !("requires_env" in fm && Truthy(fm["requires_env"])) ==> v == YList([])
    ensures Truthy(v) <==> "requires_env" in fm && Truthy(fm["requires_env"])
  {
    var given := if "requires_env" in fm then fm["requires_env"] else YList([]);
    if Truthy(given) then given else YList([])
  }

  /**
   * The record for a validated skill; None when the description is not a
   * string, on which `.strip()` raises and the run stops.
   */
  function MakeRecord(fm: FrontMatter, contentHash: string): (r: Option<Record>)
    requires forall f :: f in RequiredFields ==> f in fm
    ensures r.None? <==> !fm["description"].YStr?
    ensures r.Some? ==> NoOuterSpace(r.value.description)
    ensures r.Some? ==> r.value.description == Strip(fm["description"].s)
    ensures r.Some? ==> r.value.id == fm["name"] && r.value.version == fm["version"] && r.value.author == fm["author"]
    ensures r.Some? ==> r.value.contentHash == contentHash && r.value.requiresEnv == RequiresEnv(fm)
    ensures r.Some? ==> (r.value.hasExecutionManifest <==> "execution" in fm)
  {
    match fm["description"]
    case YStr(d) =>
      Some(Record(
        id := fm["name"],
        description := Strip(d),
        version := fm["version"],
        author := fm["author"],
        contentHash := contentHash,
        requiresEnv := RequiresEnv(fm),
        hasExecutionManifest := "execution" in fm))
    case _ => None
  }

  // ---------------------------------------------------------------------
  // compute_content_hash
  // ---------------------------------------------------------------------

  /**
   * UTF-8 encoding of one code point: the shortest form, a lead byte that announces
   * the length, and continuation bytes 0x80..0xBF after it.
   */
  function EncodeChar(c: char): (bs: seq<byte>)
    ensures 1 <= |bs| <= 4
    ensures (c as int < 0x80) <==> |bs| == 1
    ensures (0x80 <= c as int < 0x800) <==> |bs| == 2
    ensures (0x800 <= c as int < 0x10000) <==> |bs| == 3
    ensures |bs| == 1 ==> bs[0] as int == c as int
    ensures |bs| == 2 ==> 0xC2 <= bs[0] <= 0xDF
    ensures |bs| == 3 ==> 0xE0 <= bs[0] <= 0xEF
    ensures |bs| == 4 ==> 0xF0 <= bs[0] <= 0xF4
    ensures forall k :: 1 <= k < |bs| ==> 0x80 <= bs[k] <= 0xBF
  {
    var n := c as int;
    if n < 0x80 then [n as byte]
    else if n < 0x800 then [(0xC0 + n / 64) as byte, (0x80 + n % 64) as byte]
    else if n < 0x10000 then
      [(0xE0 + n / 4096) as byte, (0x80 + (n / 64) % 64) as byte, (0x80 + n % 64) as byte]
    else
      [(0xF0 + n / 262144) as byte, (0x80 + (n / 4096) % 64) as byte,
       (0x80 + (n / 64) % 64) as byte, (0x80 + n % 64) as byte]
  }

  /** The code point a lead byte and its continuation bytes stand for. */
  function DecodeChar(bs: seq<byte>): int
    requires 1 <= |bs| <= 4
  {
    if |bs| == 1 then bs[0] as int
    else if |bs| == 2 then (bs[0] as int - 0xC0) * 64 + (bs[1] as int - 0x80)
    else if |bs| == 3 then
      ((bs[0] as int - 0xE0) * 64 + (bs[1] as int - 0x80)) * 64 + (bs[2] as int - 0x80)
    else
      (((bs[0] as int - 0xF0) * 64 + (bs[1] as int - 0x80)) * 64 + (bs[2] as int - 0x80)) * 64
        + (bs[3] as int - 0x80)
  }

  /** Decoding the encoding of a character gives back its code point. */
  lemma EncodeCharRoundTrip(c: char)
    ensures DecodeChar(EncodeChar(c)) == c as int
  {
    var n := c as int;
    assert n == n / 64 * 64 + n % 64;
    assert n / 64 == n / 4096 * 64 + (n / 64) % 64;
    assert n / 4096 == n / 262144 * 64 + (n / 4096) % 64;
  }

  /** `s.encode("utf-8")`. */
  function Utf8(s: string): (bs: seq<byte>)
    ensures |s| <= |bs| <= 4 * |s|
  {
    if s == [] then [] else Utf8(s[..|s| - 1]) + EncodeChar(s[|s| - 1])
  }

  /** Encoding a concatenation concatenates the encodings. */
  lemma {:induction false} Utf8Append(a: string, b: string)
    ensures Utf8(a + b) == Utf8(a) + Utf8(b)
    decreases |b|
  {
    if b != [] {
      assert (a + b)[..|a + b| - 1] == a + b[..|b| - 1];
      Utf8Append(a, b[..|b| - 1]);
    } else {
      assert a + b == a;
    }
  }

  /** ASCII text encodes to its code points, one byte each. */
  lemma {:induction false} Utf8Ascii(s: string)
    requires forall k :: 0 <= k < |s| ==> s[k] as int < 0x80
    ensures |Utf8(s)| == |s|
    ensures forall k :: 0 <= k < |s| ==> Utf8(s)[k] as int == s[k] as int
  {
    if s != [] {
      Utf8Ascii(s[..|s| - 1]);
    }
  }

  datatype FileEntry = FileEntry(name: string, content: seq<byte>)

  /** One triple of `os.walk`: a directory (by its path relative to the skill directory, "" for the skill directory itself) and its files. */
  datatype WalkDir = WalkDir(rel: string, files: seq<FileEntry>)

  function RootKey(d: WalkDir): string { d.rel }

  function FileKey(f: FileEntry): string { f.name }

  /** `os.path.relpath(os.path.join(root, name), skill_dir)`; its contract is that definition, as a suffix, a prefix and the `/` between. */
  function RelPath(root: string, name: string): (path: string)
    ensures |name| <= |path| && path[|path| - |name|..] == name
    ensures root == "" ==> path == name
    ensures root != "" ==> |path| == |root| + 1 + |name| && path[..|root|] == root && path[|root|] == '/'
  {
    if root == "" then name else root + "/" + name
  }

  /** The bytes fed for one file: its relative path, then its content, with nothing between. */
  function FileBytes(root: string, f: FileEntry): seq<byte> {
    Utf8(RelPath(root, f.name)) + f.content
  }

  /** The bytes fed for the files of one directory, in the given order. */
  function FilesStream(root: string, files: seq<FileEntry>): seq<byte> {
    if files == [] then [] else FilesStream(root, files[..|files| - 1]) + FileBytes(root, files[|files| - 1])
  }

  /** The bytes fed for a list of directories, in the given order, each one's files by name. */
  function DirsStream(dirs: seq<WalkDir>): seq<byte> {
    if dirs == [] then []
    else
      var d := dirs[|dirs| - 1];
      DirsStream(dirs[..|dirs| - 1]) + FilesStream(d.rel, SortBy(d.files, FileKey))
  }

  /** Everything the hasher is fed for a skill directory: directories by path, files by name. */
  function HashStream(walk: seq<WalkDir>): seq<byte> {
    DirsStream(SortBy(walk, RootKey))
  }

  /** The `contentHash` of a record. */
  function ContentHashOf(walk: seq<WalkDir>, hexDigest: seq<byte> -> string): (h: string)
    ensures StartsWith(h, "sha256:")
  {
    "sha256:" + hexDigest(HashStream(walk))
  }

  /** Feeding one more file. */
  lemma FilesStreamStep(root: string, files: seq<FileEntry>, f: nat)
    requires f < |files|
    ensures FilesStream(root, files[..f + 1]) == FilesStream(root, files[..f]) + FileBytes(root, files[f])
  {
    assert files[..f + 1][..f] == files[..f];
  }

  /** Feeding one more directory. */
  lemma DirsStreamStep(dirs: seq<WalkDir>, d: nat)
    requires d < |dirs|
    ensures DirsStream(dirs[..d + 1]) == DirsStream(dirs[..d]) + FilesStream(dirs[d].rel, SortBy(dirs[d].files, FileKey))
  {
    assert dirs[..d + 1][..d] == dirs[..d];
  }

  /** The inner loop of `compute_content_hash`: feed the files of one directory, in the order given. */
  method FeedFiles(fed: seq<byte>, root: string, files: seq<FileEntry>) returns (out: seq<byte>)
    ensures out == fed + FilesStream(root, files)
  {
    out := fed;
    for f := 0 to |files|
      invariant out == fed + FilesStream(root, files[..f])
    {
      var path := Utf8(RelPath(root, files[f].name));
      FeedOneFile(fed, FilesStream(root, files[..f]), path, files[f].content);
      FilesStreamStep(root, files, f);
      out := out + path;
      out := out + files[f].content;
    }
    assert files[..|files|] == files;
  }

  /** Feeding a path and then a content extends the stream by both. */
  lemma FeedOneFile(fed: seq<byte>, sofar: seq<byte>, path: seq<byte>, content: seq<byte>)
    ensures fed + sofar + path + content == fed + (sofar + (path + content))
  {
  }

  /** `compute_content_hash`: directories in path order, the files of each in name order. */
  method ContentHash(walk: seq<WalkDir>, hexDigest: seq<byte> -> string) returns (h: string)
    ensures h == ContentHashOf(walk, hexDigest)
  {
    var dirs := SortBy(walk, RootKey);
    var fed: seq<byte> := [];
    for d := 0 to |dirs|
      invariant fed == DirsStream(dirs[..d])
    {
      DirsStreamStep(dirs, d);
      fed := FeedFiles(fed, dirs[d].rel, SortBy(dirs[d].files, FileKey));
    }
    assert dirs[..|dirs|] == dirs;
    h := "sha256:" + hexDigest(fed);
  }

  /** x occurs in s starting at position i. */
  predicate InfixAt(x: seq<byte>, s: seq<byte>, i: int) {
    0 <= i && i + |x| <= |s| && s[i..i + |x|] == x
  }

  /** x occurs as a contiguous stretch of s. */
  ghost predicate Infix(x: seq<byte>, s: seq<byte>) {
    exists i :: InfixAt(x, s, i)
  }

  lemma InfixExtend(x: seq<byte>, s: seq<byte>, t: seq<byte>)
    requires Infix(x, s)
    ensures Infix(x, s + t)
  {
    var i :| InfixAt(x, s, i);
    assert (s + t)[i..i + |x|] == x;
    assert InfixAt(x, s + t, i);
  }

  lemma InfixAtEnd(x: seq<byte>, s: seq<byte>)
    ensures Infix(x, s + x)
  {
    assert (s + x)[|s|..|s| + |x|] == x;
    assert InfixAt(x, s + x, |s|);
  }

  lemma InfixPrepend(x: seq<byte>, s: seq<byte>, t: seq<byte>)
    requires Infix(x, s)
    ensures Infix(x, t + s)
  {
    var i :| InfixAt(x, s, i);
    assert (t + s)[|t| + i..|t| + i + |x|] == x;
    assert InfixAt(x, t + s, |t| + i);
  }

  /** Every file of a directory is fed: its path and content, as one stretch of the directory's bytes. */
  lemma {:induction false} FilesStreamHolds(root: string, files: seq<FileEntry>, f: FileEntry)
    requires f in files
    ensures Infix(FileBytes(root, f), FilesStream(root, files))
  {
    var init := files[..|files| - 1];
    var last := files[|files| - 1];
    assert files == init + [last];
    if f == last {
      InfixAtEnd(FileBytes(root, f), FilesStream(root, init));
    } else {
      FilesStreamHolds(root, init, f);
      InfixExtend(FileBytes(root, f), FilesStream(root, init), FileBytes(root, last));
    }
  }

  /** Every file of every directory listed is fed. */
  lemma {:induction false} DirsStreamHolds(dirs: seq<WalkDir>, d: WalkDir, f: FileEntry)
    requires d in dirs && f in d.files
    ensures Infix(FileBytes(d.rel, f), DirsStream(dirs))
  {
    var init := dirs[..|dirs| - 1];
    var last := dirs[|dirs| - 1];
    assert dirs == init + [last];
    if d == last {
      SortByMembers(d.files, FileKey);
      FilesStreamHolds(d.rel, SortBy(d.files, FileKey), f);
      InfixPrepend(FileBytes(d.rel, f), FilesStream(d.rel, SortBy(d.files, FileKey)), DirsStream(init));
    } else {
      DirsStreamHolds(init, d, f);
      InfixExtend(FileBytes(d.rel, f), DirsStream(init), FilesStream(last.rel, SortBy(last.files, FileKey)));
    }
  }

  /** Every file `os.walk` reports is fed to the hasher: its relative path followed by its bytes. */
  lemma HashStreamHoldsEveryFile(walk: seq<WalkDir>, d: WalkDir, f: FileEntry)
    requires d in walk && f in d.files
    ensures Infix(FileBytes(d.rel, f), HashStream(walk))
  {
    SortByMembers(walk, RootKey);
    DirsStreamHolds(SortBy(walk, RootKey), d, f);
  }

  /** The hash does not depend on the order `os.walk` reports directories in. */
  lemma HashIgnoresWalkOrder(w1: seq<WalkDir>, w2: seq<WalkDir>)
    requires multiset(w1) == multiset(w2)
    requires KeyInjective(w1, RootKey)
    ensures HashStream(w1) == HashStream(w2)
  {
    SortByIgnoresOrder(w1, w2, RootKey);
  }

  /**
   * With no separator between a path and its content, a file `ab` holding
   * `c` and a file `a` holding `bc` feed the hasher the same bytes.
   */
  lemma PathAndContentRunTogether()
    ensures FileBytes("", FileEntry("ab", [99])) == FileBytes("", FileEntry("a", [98, 99]))
  {
    Utf8Ascii("ab");
    Utf8Ascii("a");
  }

  // ---------------------------------------------------------------------
  // main
  // ---------------------------------------------------------------------

  /** What an entry of the skills directory is. */
  datatype Kind =
    | NotADirectory
    | Directory(skillMd: Option<string>, walk: seq<WalkDir>)

  datatype Entry = Entry(name: string, kind: Kind)

  function EntryKey(e: Entry): string { e.name }

  datatype RegistryFile = RegistryFile(skills: seq<Record>)

  /** How a run ends. */
  datatype Outcome =
    | SkillsDirMissing                  // exit 1 before the loop
    | Crashed(entry: string)            // `.strip()` on a description that is not a string
    | ValidationFailed(errors: nat)     // exit 1, nothing written
    | Written(registry: RegistryFile)   // registry.json written, exit 0

  /** The process exit status: 0 exactly when the registry was written, 1 otherwise. */
  function ExitStatus(o: Outcome): (status: int)
    ensures status == 0 || status == 1
    ensures status == 0 <==> o.Written?
  {
    if o.Written? then 0 else 1
  }

  /** The loop state: the records so far and the error count. */
  datatype Progress = Progress(skills: seq<Record>, errors: nat)

  /** The directory's SKILL.md passes validation. */
  predicate IsValidSkill(e: Entry, loadYaml: string -> Option<Yaml>) {
    e.kind.Directory? && ParseSkillMd(e.kind.skillMd, loadYaml).Success?
  }

  /** The directory fails validation. */
  predicate IsInvalidSkill(e: Entry, loadYaml: string -> Option<Yaml>) {
    e.kind.Directory? && ParseSkillMd(e.kind.skillMd, loadYaml).Failure?
  }

  /** A valid skill whose description is not a string. */
  predicate Crashes(e: Entry, loadYaml: string -> Option<Yaml>) {
    IsValidSkill(e, loadYaml) && !ParseSkillMd(e.kind.skillMd, loadYaml).value["description"].YStr?
  }

  /** The record a valid skill contributes. */
  function RecordOf(e: Entry, loadYaml: string -> Option<Yaml>, hexDigest: seq<byte> -> string): Option<Record>
    requires IsValidSkill(e, loadYaml)
  {
    MakeRecord(ParseSkillMd(e.kind.skillMd, loadYaml).value, ContentHashOf(e.kind.walk, hexDigest))
  }

  /** One iteration of the loop; None when it crashes. */
  function Visit(p: Progress, e: Entry, loadYaml: string -> Option<Yaml>, hexDigest: seq<byte> -> string): (r: Option<Progress>)
    ensures r.None? <==> Crashes(e, loadYaml)
    ensures r.Some? ==> p.skills <= r.value.skills && p.errors <= r.value.errors
    ensures r.Some? ==> |r.value.skills| + r.value.errors == |p.skills| + p.errors + (if e.kind.Directory? then 1 else 0)
  {
    match e.kind
    case NotADirectory => Some(p)
    case Directory(md, walk) =>
      match ParseSkillMd(md, loadYaml)
      case Failure(_) => Some(Progress(p.skills, p.errors + 1))
      case Success(fm) =>
        match MakeRecord(fm, ContentHashOf(walk, hexDigest))
        case None => None
        case Some(rec) => Some(Progress(p.skills + [rec], p.errors))
  }

  /** The loop over the entries in the order given: its final state, or the entry it crashed on. */
  function Scan(es: seq<Entry>, loadYaml: string -> Option<Yaml>, hexDigest: seq<byte> -> string): Result<Progress, string> {
    if es == [] then Success(Progress([], 0))
    else
      match Scan(es[..|es| - 1], loadYaml, hexDigest)
      case Failure(name) => Failure(name)
      case Success(p) =>
        match Visit(p, es[|es| - 1], loadYaml, hexDigest)
        case None => Failure(es[|es| - 1].name)
        case Some(q) => Success(q)
  }

  /** The whole run for a listing of the skills directory (None when it does not exist). */
  function Run(listing: Option<seq<Entry>>, loadYaml: string -> Option<Yaml>, hexDigest: seq<byte> -> string): (o: Outcome)
    ensures o.SkillsDirMissing? <==> listing.None?
    ensures o.ValidationFailed? ==> o.errors > 0
    ensures o.Written? ==> |o.registry.skills| == |Dirs(SortBy(listing.value, EntryKey))|
  {
    match listing
    case None => SkillsDirMissing
    case Some(entries) =>
      match Scan(SortBy(entries, EntryKey), loadYaml, hexDigest)
      case Failure(name) => Crashed(name)
      case Success(p) =>
        ScanAccounts(SortBy(entries, EntryKey), loadYaml, hexDigest);
        if p.errors > 0 then ValidationFailed(p.errors) else Written(RegistryFile(p.skills))
  }

  /** A loop that does not crash ends with one record or one error per directory. */
  lemma {:induction false} ScanAccounts(es: seq<Entry>, loadYaml: string -> Option<Yaml>, hexDigest: seq<byte> -> string)
    ensures Scan(es, loadYaml, hexDigest).Success? ==>
              |Scan(es, loadYaml, hexDigest).value.skills| + Scan(es, loadYaml, hexDigest).value.errors == |Dirs(es)|
  {
    if es != [] {
      ScanAccounts(es[..|es| - 1], loadYaml, hexDigest);
    }
  }

  /** Once the loop has crashed, processing more entries does not change that. */
  lemma {:induction false} CrashIsFinal(es: seq<Entry>, i: nat, loadYaml: string -> Option<Yaml>, hexDigest: seq<byte> -> string)
    requires i <= |es|
    requires Scan(es[..i], loadYaml, hexDigest).Failure?
    ensures Scan(es, loadYaml, hexDigest) == Scan(es[..i], loadYaml, hexDigest)
    decreases |es| - i
  {
    if i < |es| {
      assert es[..i + 1][..i] == es[..i];
      CrashIsFinal(es, i + 1, loadYaml, hexDigest);
    } else {
      assert es[..i] == es;
    }
  }

  /** `main`: the loop over the sorted entries, counting errors and collecting records. */
  method Generate(listing: Option<seq<Entry>>, loadYaml: string -> Option<Yaml>, hexDigest: seq<byte> -> string)
    returns (out: Outcome)
    ensures out == Run(listing, loadYaml, hexDigest)
  {
    if listing.None? {
      return SkillsDirMissing;
    }
    var entries := SortBy(listing.value, EntryKey);
    var skills: seq<Record> := [];
    var errors := 0;
    for i := 0 to |entries|
      invariant Scan(entries[..i], loadYaml, hexDigest) == Success(Progress(skills, errors))
    {
      var e := entries[i];
      assert entries[..i + 1][..i] == entries[..i];
      if e.kind.NotADirectory? {
        continue;
      }
      var frontmatter := ParseSkillMd(e.kind.skillMd, loadYaml);
      if frontmatter.Failure? {
        errors := errors + 1;
        continue;
      }
      var contentHash := ContentHash(e.kind.walk, hexDigest);
      var record := MakeRecord(frontmatter.value, contentHash);
      if record.None? {
        CrashIsFinal(entries, i + 1, loadYaml, hexDigest);
        return Crashed(e.name);
      }
      skills := skills + [record.value];
    }
    assert entries[..|entries|] == entries;
    if errors > 0 {
      return ValidationFailed(errors);
    }
    return Written(RegistryFile(skills));
  }

  // ---------------------------------------------------------------------
  // Properties of the loop and of the run
  // ---------------------------------------------------------------------

  /** The directory entries of a listing, in order. */
  function Dirs(es: seq<Entry>): (ds: seq<Entry>)
    ensures forall k :: 0 <= k < |ds| ==> ds[k].kind.Directory?
    ensures forall e :: e in ds <==> e in es && e.kind.Directory?
  {
    if es == [] then []
    else
      var init := Dirs(es[..|es| - 1]);
      assert es == es[..|es| - 1] + [es[|es| - 1]];
      if es[|es| - 1].kind.Directory? then init + [es[|es| - 1]] else init
  }

  /** Keeping only the directories commutes with concatenation: their order is kept. */
  lemma {:induction false} DirsAppend(a: seq<Entry>, b: seq<Entry>)
    ensures Dirs(a + b) == Dirs(a) + Dirs(b)
    decreases |b|
  {
    if b == [] {
      assert a + b == a;
    } else {
      var b', e := b[..|b| - 1], b[|b| - 1];
      var tail := if e.kind.Directory? then [e] else [];
      assert (a + b)[..|a + b| - 1] == a + b';
      assert (a + b)[|a + b| - 1] == e;
      assert Dirs(a + b) == Dirs(a + b') + tail;
      assert Dirs(b) == Dirs(b') + tail;
      DirsAppend(a, b');
    }
  }

  /** Entries that are not directories are skipped: they influence nothing. */
  lemma {:induction false} ScanSkipsFiles(es: seq<Entry>, loadYaml: string -> Option<Yaml>, hexDigest: seq<byte> -> string)
    ensures Scan(es, loadYaml, hexDigest) == Scan(Dirs(es), loadYaml, hexDigest)
  {
    if es != [] {
      var init := es[..|es| - 1];
      ScanSkipsFiles(init, loadYaml, hexDigest);
      if es[|es| - 1].kind.Directory? {
        assert (Dirs(init) + [es[|es| - 1]])[..|Dirs(init)|] == Dirs(init);
      }
    }
  }

  /** The valid skills of a listing, in order. */
  function ValidSkills(es: seq<Entry>, loadYaml: string -> Option<Yaml>): (vs: seq<Entry>)
    ensures forall k :: 0 <= k < |vs| ==> IsValidSkill(vs[k], loadYaml)
    ensures forall e :: e in vs <==> e in es && IsValidSkill(e, loadYaml)
  {
    if es == [] then []
    else
      var init := ValidSkills(es[..|es| - 1], loadYaml);
      assert es == es[..|es| - 1] + [es[|es| - 1]];
      if IsValidSkill(es[|es| - 1], loadYaml) then init + [es[|es| - 1]] else init
  }

  /** Keeping only the valid skills commutes with concatenation: their order is kept. */
  lemma {:induction false} ValidSkillsAppend(a: seq<Entry>, b: seq<Entry>, loadYaml: string -> Option<Yaml>)
    ensures ValidSkills(a + b, loadYaml) == ValidSkills(a, loadYaml) + ValidSkills(b, loadYaml)
    decreases |b|
  {
    if b == [] {
      assert a + b == a;
    } else {
      var b', e := b[..|b| - 1], b[|b| - 1];
      var tail := if IsValidSkill(e, loadYaml) then [e] else [];
      assert (a + b)[..|a + b| - 1] == a + b';
      assert (a + b)[|a + b| - 1] == e;
      assert ValidSkills(a + b, loadYaml) == ValidSkills(a + b', loadYaml) + tail;
      assert ValidSkills(b, loadYaml) == ValidSkills(b', loadYaml) + tail;
      ValidSkillsAppend(a, b', loadYaml);
    }
  }

  /** The positions of the entries that fail validation. */
  function InvalidPositions(es: seq<Entry>, loadYaml: string -> Option<Yaml>): set<nat> {
    set k: nat | k < |es| && IsInvalidSkill(es[k], loadYaml)
  }

  lemma InvalidPositionsStep(es: seq<Entry>, loadYaml: string -> Option<Yaml>)
    requires es != []
    ensures InvalidPositions(es, loadYaml) ==
            InvalidPositions(es[..|es| - 1], loadYaml) +
            (if IsInvalidSkill(es[|es| - 1], loadYaml) then {|es| - 1} else {})
  {
    var init := es[..|es| - 1];
    assert forall k :: 0 <= k < |init| ==> init[k] == es[k];
  }

  /** One successful iteration: a file changes nothing, an invalid skill counts, a valid one adds its record. */
  lemma ScanSuccessStep(es: seq<Entry>, loadYaml: string -> Option<Yaml>, hexDigest: seq<byte> -> string)
    requires es != [] && Scan(es, loadYaml, hexDigest).Success?
    ensures Scan(es[..|es| - 1], loadYaml, hexDigest).Success?
    ensures IsValidSkill(es[|es| - 1], loadYaml) ==> RecordOf(es[|es| - 1], loadYaml, hexDigest).Some?
    ensures Scan(es, loadYaml, hexDigest).value ==
              var p := Scan(es[..|es| - 1], loadYaml, hexDigest).value;
              if IsInvalidSkill(es[|es| - 1], loadYaml) then Progress(p.skills, p.errors + 1)
              else if IsValidSkill(es[|es| - 1], loadYaml) then
                Progress(p.skills + [RecordOf(es[|es| - 1], loadYaml, hexDigest).value], p.errors)
              else p
  {
  }

  /** The error count is the number of skill directories that fail validation. */
  lemma {:induction false} ScanErrors(es: seq<Entry>, loadYaml: string -> Option<Yaml>, hexDigest: seq<byte> -> string)
    requires Scan(es, loadYaml, hexDigest).Success?
    ensures Scan(es, loadYaml, hexDigest).value.errors == |InvalidPositions(es, loadYaml)|
  {
    if es != [] {
      var init := es[..|es| - 1];
      ScanSuccessStep(es, loadYaml, hexDigest);
      ScanErrors(init, loadYaml, hexDigest);
      InvalidPositionsStep(es, loadYaml);
      assert |es| - 1 !in InvalidPositions(init, loadYaml);
    }
  }

  /** The records are those of the valid skills, one each, in order. */
  lemma {:induction false} ScanRecords(es: seq<Entry>, loadYaml: string -> Option<Yaml>, hexDigest: seq<byte> -> string)
    requires Scan(es, loadYaml, hexDigest).Success?
    ensures |Scan(es, loadYaml, hexDigest).value.skills| == |ValidSkills(es, loadYaml)|
    ensures forall k :: 0 <= k < |ValidSkills(es, loadYaml)| ==>
              RecordOf(ValidSkills(es, loadYaml)[k], loadYaml, hexDigest) == Some(Scan(es, loadYaml, hexDigest).value.skills[k])
  {
    if es != [] {
      var init := es[..|es| - 1];
      ScanSuccessStep(es, loadYaml, hexDigest);
      ScanRecords(init, loadYaml, hexDigest);
    }
  }

  /**
   * The error count is the number of skill directories that fail validation,
   * and the records are those of the valid skills, one each, in order.
   */
  lemma ScanCounts(es: seq<Entry>, loadYaml: string -> Option<Yaml>, hexDigest: seq<byte> -> string)
    requires Scan(es, loadYaml, hexDigest).Success?
    ensures Scan(es, loadYaml, hexDigest).value.errors == |InvalidPositions(es, loadYaml)|
    ensures |Scan(es, loadYaml, hexDigest).value.skills| == |ValidSkills(es, loadYaml)|
    ensures forall k :: 0 <= k < |ValidSkills(es, loadYaml)| ==>
              RecordOf(ValidSkills(es, loadYaml)[k], loadYaml, hexDigest) == Some(Scan(es, loadYaml, hexDigest).value.skills[k])
  {
    ScanErrors(es, loadYaml, hexDigest);
    ScanRecords(es, loadYaml, hexDigest);
  }

  /** The loop has crashed after an entry when it had crashed before it or crashes on it. */
  lemma ScanFailureStep(es: seq<Entry>, loadYaml: string -> Option<Yaml>, hexDigest: seq<byte> -> string)
    requires es != []
    ensures Scan(es, loadYaml, hexDigest).Failure? <==>
              Scan(es[..|es| - 1], loadYaml, hexDigest).Failure? || Crashes(es[|es| - 1], loadYaml)
  {
  }

  /** Some element satisfies P exactly when one before the last does or the last does. */
  lemma ExistsSplitLast<T>(s: seq<T>, init: seq<T>, P: T -> bool)
    requires s != [] && init == s[..|s| - 1]
    ensures (exists k :: 0 <= k < |s| && P(s[k])) <==>
              (exists k :: 0 <= k < |init| && P(init[k])) || P(s[|s| - 1])
  {
    assert forall k :: 0 <= k < |init| ==> init[k] == s[k];
  }

  /** The loop crashes exactly when some valid skill has a description that is not a string. */
  lemma {:induction false} ScanCrashes(es: seq<Entry>, loadYaml: string -> Option<Yaml>, hexDigest: seq<byte> -> string)
    ensures Scan(es, loadYaml, hexDigest).Failure? <==> exists k :: 0 <= k < |es| && Crashes(es[k], loadYaml)
  {
    if es != [] {
      ScanCrashes(es[..|es| - 1], loadYaml, hexDigest);
      ScanFailureStep(es, loadYaml, hexDigest);
      ExistsSplitLast(es, es[..|es| - 1], e => Crashes(e, loadYaml));
    }
  }

  /** A crash names the first valid skill whose description is not a string. */
  lemma {:induction false} CrashNamesFirst(es: seq<Entry>, loadYaml: string -> Option<Yaml>, hexDigest: seq<byte> -> string)
    requires Scan(es, loadYaml, hexDigest).Failure?
    ensures exists k :: 0 <= k < |es| && Crashes(es[k], loadYaml) && Scan(es, loadYaml, hexDigest).error == es[k].name &&
                        forall j :: 0 <= j < k ==> !Crashes(es[j], loadYaml)
  {
    var init := es[..|es| - 1];
    assert forall k :: 0 <= k < |init| ==> init[k] == es[k];
    if Scan(init, loadYaml, hexDigest).Failure? {
      CrashNamesFirst(init, loadYaml, hexDigest);
      var k :| 0 <= k < |init| && Crashes(init[k], loadYaml) && Scan(init, loadYaml, hexDigest).error == init[k].name &&
               forall j :: 0 <= j < k ==> !Crashes(init[j], loadYaml);
      assert Crashes(es[k], loadYaml);
    } else {
      ScanCrashes(init, loadYaml, hexDigest);
      assert forall j :: 0 <= j < |es| - 1 ==> !Crashes(init[j], loadYaml);
    }
  }

  /** No position fails validation exactly when no entry does. */
  lemma NoInvalidIff(es: seq<Entry>, loadYaml: string -> Option<Yaml>)
    ensures InvalidPositions(es, loadYaml) == {} <==> forall k :: 0 <= k < |es| ==> !IsInvalidSkill(es[k], loadYaml)
  {
    assert forall k :: 0 <= k < |es| && IsInvalidSkill(es[k], loadYaml) ==> k in InvalidPositions(es, loadYaml);
  }

  /** Every directory is a valid skill that does not crash exactly when no entry fails validation or crashes. */
  lemma AllValidIff(es: seq<Entry>, loadYaml: string -> Option<Yaml>)
    ensures (forall e :: e in es && e.kind.Directory? ==> IsValidSkill(e, loadYaml) && !Crashes(e, loadYaml)) <==>
              (forall k :: 0 <= k < |es| ==> !IsInvalidSkill(es[k], loadYaml)) &&
              !(exists k :: 0 <= k < |es| && Crashes(es[k], loadYaml))
  {
  }

  /** A registry is written exactly when the skills directory exists and every directory in it is a valid skill that does not crash. */
  lemma WrittenIffAllValid(listing: Option<seq<Entry>>, loadYaml: string -> Option<Yaml>, hexDigest: seq<byte> -> string)
    ensures Run(listing, loadYaml, hexDigest).Written? <==>
              && listing.Some?
              && (forall e :: e in listing.value && e.kind.Directory? ==> IsValidSkill(e, loadYaml) && !Crashes(e, loadYaml))
    ensures ExitStatus(Run(listing, loadYaml, hexDigest)) == 0 <==> Run(listing, loadYaml, hexDigest).Written?
  {
    if listing.Some? {
      var sorted := SortBy(listing.value, EntryKey);
      SortByMembers(listing.value, EntryKey);
      ScanCrashes(sorted, loadYaml, hexDigest);
      AllValidIff(sorted, loadYaml);
      if Scan(sorted, loadYaml, hexDigest).Success? {
        ScanErrors(sorted, loadYaml, hexDigest);
        NoInvalidIff(sorted, loadYaml);
      }
    }
  }

  /** When a registry is written, it holds one record per directory, in name order. */
  lemma WrittenRecords(listing: Option<seq<Entry>>, loadYaml: string -> Option<Yaml>, hexDigest: seq<byte> -> string)
    requires Run(listing, loadYaml, hexDigest).Written?
    ensures listing.Some?
    ensures ValidSkills(SortBy(listing.value, EntryKey), loadYaml) == Dirs(SortBy(listing.value, EntryKey))
    ensures |Run(listing, loadYaml, hexDigest).registry.skills| == |Dirs(SortBy(listing.value, EntryKey))|
    ensures forall k :: 0 <= k < |Dirs(SortBy(listing.value, EntryKey))| ==>
              RecordOf(Dirs(SortBy(listing.value, EntryKey))[k], loadYaml, hexDigest) ==
              Some(Run(listing, loadYaml, hexDigest).registry.skills[k])
  {
    var sorted := SortBy(listing.value, EntryKey);
    ScanCounts(sorted, loadYaml, hexDigest);
    NoInvalidMeansAllValid(sorted, loadYaml);
  }

  /** With no invalid directory, the valid skills are all the directories. */
  lemma {:induction false} NoInvalidMeansAllValid(es: seq<Entry>, loadYaml: string -> Option<Yaml>)
    requires InvalidPositions(es, loadYaml) == {}
    ensures ValidSkills(es, loadYaml) == Dirs(es)
  {
    if es != [] {
      InvalidPositionsStep(es, loadYaml);
      NoInvalidMeansAllValid(es[..|es| - 1], loadYaml);
    }
  }

  /** A run that fails validation reports how many directories were invalid, at least one. */
  lemma FailedCountsInvalid(listing: Option<seq<Entry>>, loadYaml: string -> Option<Yaml>, hexDigest: seq<byte> -> string)
    requires Run(listing, loadYaml, hexDigest).ValidationFailed?
    ensures listing.Some?
    ensures Run(listing, loadYaml, hexDigest).errors == |InvalidPositions(SortBy(listing.value, EntryKey), loadYaml)| > 0
  {
    ScanCounts(SortBy(listing.value, EntryKey), loadYaml, hexDigest);
  }

  /** The outcome does not depend on the order `os.listdir` returns the entries in. */
  lemma RunIgnoresListingOrder(l1: seq<Entry>, l2: seq<Entry>, loadYaml: string -> Option<Yaml>, hexDigest: seq<byte> -> string)
    requires multiset(l1) == multiset(l2)
    requires KeyInjective(l1, EntryKey)
    ensures Run(Some(l1), loadYaml, hexDigest) == Run(Some(l2), loadYaml, hexDigest)
  {
    SortByIgnoresOrder(l1, l2, EntryKey);
  }
}
