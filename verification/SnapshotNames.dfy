/** The names of snapshot files: how they are printed, how they are read back, and how a fresh one is found. */
module SnapshotNames {
  import opened Basics
  import opened Decimal

  datatype Compression = Plain | Gzip | Zstd

  function FileSuffix(c: Compression): string {
    match c
    case Plain => ".json"
    case Gzip => ".json.gz"
    case Zstd => ".json.zst"
  }

  function EncryptedSuffix(c: Compression, encrypted: bool): string {
    FileSuffix(c) + if encrypted then ".enc" else ""
  }

  const PREFIX := "snapshot_"

  /** The part of a name between prefix and suffix: the time, and a counter from the second try on. */
  function Core(timestamp: nat, attempt: nat): string {
    ShowNat(timestamp) + if attempt == 0 then "" else "_" + ShowNat(attempt)
  }

  function SnapshotName(timestamp: nat, attempt: nat, extension: string): string {
    PREFIX + Core(timestamp, attempt) + extension
  }

  // ----- Reading a name -----

  predicate EndsWith(s: string, suffix: string) {
    |suffix| <= |s| && s[|s| - |suffix|..] == suffix
  }

  function StripSuffix(s: string, suffix: string): Option<string> {
    if EndsWith(s, suffix) then Some(s[..|s| - |suffix|]) else None
  }

  function StripPrefix(s: string, prefix: string): Option<string> {
    if prefix <= s then Some(s[|prefix|..]) else None
  }

  function WithoutEnc(name: string): string {
    match StripSuffix(name, ".enc")
    case Some(rest) => rest
    case None => name
  }

  /** `split(c).next()`: the text before the first `c`. */
  function Before(s: string, c: char): string {
    if s == "" || s[0] == c then "" else [s[0]] + Before(s[1..], c)
  }

  function FromSnapshotFilename(name: string): Option<Compression> {
    var plain := WithoutEnc(name);
    if EndsWith(plain, ".json") then Some(Plain)
    else if EndsWith(plain, ".json.gz") then Some(Gzip)
    else if EndsWith(plain, ".json.zst") then Some(Zstd)
    else None
  }

  function ExtractTimestamp(name: string): Option<nat> {
    match StripPrefix(WithoutEnc(name), PREFIX)
    case None => None
    case Some(rest) =>
      var core := if EndsWith(rest, ".json") then StripSuffix(rest, ".json")
                  else if EndsWith(rest, ".json.gz") then StripSuffix(rest, ".json.gz")
                  else StripSuffix(rest, ".json.zst");
      match core
      case None => None
      case Some(text) => ParseU64(Before(text, '_'))
  }

  // ----- Round trip -----

  lemma EndOfConcat(s: string, t: string, suffix: string)
    requires |suffix| <= |t|
    ensures EndsWith(s + t, suffix) <==> EndsWith(t, suffix)
  {
    assert (s + t)[|s + t| - |suffix|..] == t[|t| - |suffix|..];
  }

  lemma StripEnd(s: string, suffix: string)
    ensures StripSuffix(s + suffix, suffix) == Some(s)
  {
  }

  lemma SuffixesDiffer(s: string, c: Compression)
    ensures !EndsWith(s + FileSuffix(c), ".enc")
    ensures EndsWith(s + FileSuffix(c), ".json") <==> c == Plain
    ensures c != Plain ==> (EndsWith(s + FileSuffix(c), ".json.gz") <==> c == Gzip)
    ensures EndsWith(s + FileSuffix(c), FileSuffix(c))
  {
    var t := FileSuffix(c);
    EndOfConcat(s, t, ".enc");
    EndOfConcat(s, t, ".json");
    EndOfConcat(s, t, t);
    if c != Plain { EndOfConcat(s, t, ".json.gz"); }
    assert t[|t| - 1] != 'c';
    assert ".enc"[3] == 'c';
    if c != Plain { assert t[|t| - 1] != 'n' && ".json"[4] == 'n'; }
    if c == Zstd { assert t[|t| - 1] != 'z' && ".json.gz"[7] == 'z'; }
  }

  lemma EncIsStripped(s: string, c: Compression, encrypted: bool)
    ensures WithoutEnc(s + EncryptedSuffix(c, encrypted)) == s + FileSuffix(c)
  {
    SuffixesDiffer(s, c);
    if encrypted {
      assert s + EncryptedSuffix(c, encrypted) == (s + FileSuffix(c)) + ".enc";
      StripEnd(s + FileSuffix(c), ".enc");
    } else {
      assert s + EncryptedSuffix(c, encrypted) == s + FileSuffix(c);
    }
  }

  lemma {:induction false} BeforeSeparator(digits: string, rest: string)
    requires forall i :: 0 <= i < |digits| ==> digits[i] != '_'
    requires rest == "" || rest[0] == '_'
    ensures Before(digits + rest, '_') == digits
  {
    if digits == "" {
      assert digits + rest == rest;
    } else {
      assert (digits + rest)[1..] == digits[1..] + rest;
      BeforeSeparator(digits[1..], rest);
    }
  }

  lemma CoreStartsWithTimestamp(timestamp: nat, attempt: nat)
    requires timestamp <= U64_MAX
    ensures ParseU64(Before(Core(timestamp, attempt), '_')) == Some(timestamp)
  {
    BeforeSeparator(ShowNat(timestamp), if attempt == 0 then "" else "_" + ShowNat(attempt));
    ParseShowU64(timestamp);
  }

  lemma PrefixIsStripped(core: string, c: Compression)
    ensures StripPrefix(PREFIX + core + FileSuffix(c), PREFIX) == Some(core + FileSuffix(c))
  {
    assert PREFIX + core + FileSuffix(c) == PREFIX + (core + FileSuffix(c));
  }

  /** Reading a printed name gives back the time and the compression, whatever the attempt number and
      whether the file is encrypted or not. */
  lemma NamesRoundTrip(timestamp: nat, attempt: nat, c: Compression, encrypted: bool)
    requires timestamp <= U64_MAX
    ensures ExtractTimestamp(SnapshotName(timestamp, attempt, EncryptedSuffix(c, encrypted))) == Some(timestamp)
    ensures FromSnapshotFilename(SnapshotName(timestamp, attempt, EncryptedSuffix(c, encrypted))) == Some(c)
  {
    hide Core, ParseU64, Before, EndsWith, EncryptedSuffix, WithoutEnc, StripPrefix, StripSuffix;
    var core := Core(timestamp, attempt);
    EncIsStripped(PREFIX + core, c, encrypted);
    SuffixesDiffer(PREFIX + core, c);
    SuffixesDiffer(core, c);
    PrefixIsStripped(core, c);
    StripEnd(core, FileSuffix(c));
    CoreStartsWithTimestamp(timestamp, attempt);
  }

  // ----- A fresh name -----

  lemma NamesAreDistinct(timestamp: nat, m: nat, n: nat, extension: string)
    requires m != n
    ensures SnapshotName(timestamp, m, extension) != SnapshotName(timestamp, n, extension)
  {
    if SnapshotName(timestamp, m, extension) == SnapshotName(timestamp, n, extension) {
      var a, b := SnapshotName(timestamp, m, extension), SnapshotName(timestamp, n, extension);
      assert a[|PREFIX|..|a| - |extension|] == Core(timestamp, m);
      assert b[|PREFIX|..|b| - |extension|] == Core(timestamp, n);
      var digits := |ShowNat(timestamp)|;
      assert Core(timestamp, m)[digits..] == if m == 0 then "" else "_" + ShowNat(m);
      assert Core(timestamp, n)[digits..] == if n == 0 then "" else "_" + ShowNat(n);
      if m > 0 && n > 0 {
        assert ("_" + ShowNat(m))[1..] == ShowNat(m) && ("_" + ShowNat(n))[1..] == ShowNat(n);
        ShowNatInjective(m, n);
      }
      assert false;
    }
  }

  ghost function Candidates(timestamp: nat, count: nat, extension: string): seq<string> {
    seq(count, i requires 0 <= i < count => SnapshotName(timestamp, i, extension))
  }

  lemma CandidatesFit(timestamp: nat, count: nat, extension: string, taken: set<string>)
    requires forall i :: 0 <= i < count ==> SnapshotName(timestamp, i, extension) in taken
    ensures count <= |taken|
  {
    var names := Candidates(timestamp, count, extension);
    forall i, j | 0 <= i < j < |names| ensures names[i] != names[j] { NamesAreDistinct(timestamp, i, j, extension); }
    NoDuplicatesFits(names, taken);
  }

  /** The loop ends, after at most one try more than there are files, with the first unused candidate. */
  method FreshName(timestamp: nat, extension: string, taken: set<string>) returns (name: string, tries: nat)
    ensures name !in taken && 1 <= tries <= |taken| + 1
    ensures name == SnapshotName(timestamp, tries - 1, extension)
    ensures forall i :: 0 <= i < tries - 1 ==> SnapshotName(timestamp, i, extension) in taken
  {
    name := PREFIX + ShowNat(timestamp) + extension;
    assert ShowNat(timestamp) + "" == ShowNat(timestamp);
    var suffix := 1;
    while name in taken
      invariant 1 <= suffix && name == SnapshotName(timestamp, suffix - 1, extension)
      invariant forall i :: 0 <= i < suffix - 1 ==> SnapshotName(timestamp, i, extension) in taken
      decreases |taken| + 1 - suffix
    {
      CandidatesFit(timestamp, suffix, extension, taken);
      name := PREFIX + (ShowNat(timestamp) + ("_" + ShowNat(suffix))) + extension;
      suffix := suffix + 1;
    }
    CandidatesFit(timestamp, suffix - 1, extension, taken);
    tries := suffix;
  }
}
