/** The store of rule sources as it works on its files: put, get and delete
    (analysis/yara_rule_store.py, analysis/plugin_store.py). */
module RuleStore {
  import opened Sequences
  import opened RuleArchive

  datatype Error = BadName(name: string) | SourceRequired | TooLarge(size: nat) | NotFound(name: string)

  datatype Result<+T> = Ok(value: T) | Err(error: Error)

  const MAX_SOURCE_BYTES := 256 * 1024

  // ---- what is accepted ---------------------------------------------------------------------------------

  predicate Letter(c: char) { 'A' <= c <= 'Z' || 'a' <= c <= 'z' || c == '_' }

  predicate NameChars(s: string, n: nat)
    requires n <= |s|
  {
    n == 0 || ((Letter(s[n - 1]) || ('0' <= s[n - 1] <= '9' && n > 1)) && NameChars(s, n - 1))
  }

  /** An identifier of at most 64 characters; the pattern's end anchor also admits one final newline. */
  predicate ValidName(s: string) {
    var n := if s != [] && s[|s| - 1] == '\n' then |s| - 1 else |s|;
    1 <= n <= 64 && NameChars(s, n)
  }

  predicate Space(c: char) {
    || '\t' <= c <= '\r' || '\U{1C}' <= c <= '\U{20}' || c == '\U{85}' || c == '\U{A0}' || c == '\U{1680}'
    || '\U{2000}' <= c <= '\U{200A}' || c == '\U{2028}' || c == '\U{2029}' || c == '\U{202F}' || c == '\U{205F}'
    || c == '\U{3000}'
  }

  predicate Blank(s: string, n: nat)
    requires n <= |s|
  {
    n == 0 || (Space(s[n - 1]) && Blank(s, n - 1))
  }

  /** The size of a text in UTF-8. */
  function Utf8Size(s: string, n: nat): nat
    requires n <= |s|
  {
    if n == 0 then 0
    else
      Utf8Size(s, n - 1)
      + (if s[n - 1] < '\U{80}' then 1 else if s[n - 1] < '\U{800}' then 2 else if s[n - 1] < '\U{10000}' then 3 else 4)
  }

  /** Why a put is refused, checked in this order. */
  function Refusal(name: string, source: string): Option<Error> {
    if !ValidName(name) then Some(BadName(name))
    else if Blank(source, |source|) then Some(SourceRequired)
    else if Utf8Size(source, |source|) > MAX_SOURCE_BYTES then Some(TooLarge(Utf8Size(source, |source|)))
    else None
  }

  // ---- what is accepted, by characters and bytes ----------------------------------------------------------

  /** A letter or `_`, then up to 63 letters, digits and `_`, and perhaps a newline after them. */
  ghost predicate NamesRule(s: string) {
    exists n: nat {:trigger NamePart(s, n)} :: 1 <= n <= 64 && NamePart(s, n)
  }

  ghost predicate NamePart(s: string, n: nat) {
    && (|s| == n || (|s| == n + 1 && s[n] == '\n'))
    && forall i :: 0 <= i < n ==>
         'A' <= s[i] <= 'Z' || 'a' <= s[i] <= 'z' || s[i] == '_' || ('0' <= s[i] <= '9' && i > 0)
  }

  /** Some character is not whitespace. */
  ghost predicate HasText(s: string) {
    exists i :: 0 <= i < |s| && !Space(s[i])
  }

  /** The bytes of a character in UTF-8. */
  ghost function Utf8Of(c: char): seq<int> {
    var n := c as int;
    if n < 0x80 then [n]
    else if n < 0x800 then [0xC0 + n / 0x40, 0x80 + n % 0x40]
    else if n < 0x1_0000 then [0xE0 + n / 0x1000, 0x80 + n / 0x40 % 0x40, 0x80 + n % 0x40]
    else [0xF0 + n / 0x4_0000, 0x80 + n / 0x1000 % 0x40, 0x80 + n / 0x40 % 0x40, 0x80 + n % 0x40]
  }

  ghost function Utf8(s: string): seq<int> {
    if s == [] then [] else Utf8(s[..|s| - 1]) + Utf8Of(s[|s| - 1])
  }

  lemma {:induction false} NameCharsAre(s: string, n: nat)
    requires n <= |s|
    ensures NameChars(s, n) <==> forall i :: 0 <= i < n ==> Letter(s[i]) || ('0' <= s[i] <= '9' && i > 0)
  {
    if n > 0 { NameCharsAre(s, n - 1); }
  }

  lemma {:induction false} ValidNames(s: string)
    ensures ValidName(s) <==> NamesRule(s)
  {
    var n := if s != [] && s[|s| - 1] == '\n' then |s| - 1 else |s|;
    NameCharsAre(s, n);
    assert ValidName(s) ==> NamePart(s, n);
    if m: nat :| 1 <= m <= 64 && NamePart(s, m) { assert m == n; }
  }

  lemma {:induction false} BlankIs(s: string, n: nat)
    requires n <= |s|
    ensures Blank(s, n) <==> forall i :: 0 <= i < n ==> Space(s[i])
  {
    if n > 0 { BlankIs(s, n - 1); }
  }

  lemma {:induction false} SizeIsUtf8(s: string, n: nat)
    requires n <= |s|
    ensures Utf8Size(s, n) == |Utf8(s[..n])|
  {
    if n > 0 {
      SizeIsUtf8(s, n - 1);
      assert s[..n][..n - 1] == s[..n - 1];
    }
  }

  /** What a put answers: a bad name first, then a source without text, then one of more than 256 KiB;
      every other source is accepted. */
  ghost predicate Judged(name: string, source: string, error: Option<Error>) {
    if !NamesRule(name) then error == Some(BadName(name))
    else if !HasText(source) then error == Some(SourceRequired)
    else if |Utf8(source)| > 262144 then error == Some(TooLarge(|Utf8(source)|))
    else error == None
  }

  lemma {:induction false} RefusalJudges(name: string, source: string)
    ensures Judged(name, source, Refusal(name, source))
  {
    ValidNames(name);
    BlankIs(source, |source|);
    SizeIsUtf8(source, |source|);
    TakeAll(source);
  }

  /** A stored source as it reads back; `modified` flags a source whose digest is not the recorded one. */
  datatype Stored = Stored(source: string, version: Option<nat>, modified: bool)

  // ---- the store ------------------------------------------------------------------------------------------

  class YaraRuleStore {
    const digest: Digest
    const sha: Digest
    var live: map<string, string>
    var meta: map<string, Meta>
    var history: map<(string, string), string>

    constructor (digest: Digest, sha: Digest)
      ensures this.digest == digest && this.sha == sha && Files() == EMPTY
    {
      this.digest, this.sha := digest, sha;
      live, meta, history := map[], map[], map[];
    }

    ghost function Files(): Store
      reads this
    {
      Store(live, meta, history)
    }

    /** Keeps the current source of a name under history, unless its digest is there already. */
    method ArchivePrevious(name: string)
      requires name in live
      modifies this`history
      ensures history == if (name, digest(live[name])) in old(history) then old(history)
                         else old(history)[(name, digest(live[name])) := live[name]]
    {
      if (name, digest(live[name])) !in history {
        history := history[(name, digest(live[name])) := live[name]];
      }
    }

    function Get(name: string): Result<Stored>
      reads this
    {
      if !ValidName(name) then Err(BadName(name))
      else if name !in live then Err(NotFound(name))
      else
        var recorded := if name in meta then meta[name].sha else None;
        Ok(Stored(live[name], if name in meta then Some(meta[name].version) else None,
                  recorded.Some? && recorded.value != sha(live[name])))
    }

    /** Stores a source: all the writes of a put are done, and it reads back under the next version,
        not flagged as modified. The source it replaces can still be read back unless history holds
        another one of its digest. A refused put changes nothing. */
    method Put(name: string, source: string) returns (r: Result<nat>)
      modifies this
      ensures Judged(name, source, if r.Ok? then None else Some(r.error))
      ensures match Refusal(name, source)
              case Some(error) => r == Err(error) && Files() == old(Files())
              case None =>
                && r == Ok(Version(old(Files()), name) + 1)
                && (var writes := PutWrites(old(Files()), digest, sha, name, source);
                    Files() == ApplyFirst(old(Files()), digest, writes, |writes|))
                && Get(name) == Ok(Stored(source, Some(r.value), false))
                && (name in old(live) ==>
                      Survives(Files(), digest, (name, old(live)[name]))
                      == (source == old(live)[name] || (name, digest(old(live)[name])) !in old(history)
                          || old(history)[(name, digest(old(live)[name]))] == old(live)[name]))
    {
      RefusalJudges(name, source);
      if Refusal(name, source).Some? { return Err(Refusal(name, source).value); }
      PutAll(Files(), digest, sha, name, source);
      if name in live { PutKeepsExactly(Files(), digest, sha, name, source); }
      var version := if name in meta then meta[name].version else 0;
      if name in live {
        ArchivePrevious(name);
      }
      live := live[name := source];
      meta := meta[name := Meta(version + 1, Some(sha(source)))];
      r := Ok(version + 1);
    }

    /** Removes a name from the live set once its source is in history; the tombstone keeps the
        version, so a later put continues from it. */
    method Delete(name: string) returns (r: Result<Option<nat>>)
      modifies this
      ensures if !NamesRule(name) then r == Err(BadName(name)) && Files() == old(Files())
              else if name !in old(live) then r == Err(NotFound(name)) && Files() == old(Files())
              else
                && r == Ok(if name in old(meta) then Some(old(meta)[name].version) else None)
                && (var writes := DeleteWrites(old(Files()), digest, name);
                    Files() == ApplyFirst(old(Files()), digest, writes, |writes|))
                && Get(name) == Err(NotFound(name))
                && Version(Files(), name) == Version(old(Files()), name)
                && Survives(Files(), digest, (name, old(live)[name]))
                   == ((name, digest(old(live)[name])) !in old(history)
                       || old(history)[(name, digest(old(live)[name]))] == old(live)[name])
    {
      ValidNames(name);
      if !ValidName(name) { return Err(BadName(name)); }
      if name !in live { return Err(NotFound(name)); }
      DeleteAll(Files(), digest, name);
      ArchivePrevious(name);
      r := Ok(if name in meta then Some(meta[name].version) else None);
      live := live - {name};
      meta := meta[name := Meta(if r.value.Some? then r.value.value else 0, None)];
    }
  }
}
