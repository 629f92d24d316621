/** keyparse.py and builder.resolve_key_dims: the Hive object-key template, its
    rebuild, and the guarded resolution of a key to a file identity. */
module KeyParse {
  import opened Common

  /** A file's identity by name: the five partitions and the leaf. */
  datatype Dims = Dims(customer: string, site: string, robot: string, source: string,
                       date: string, filename: string)

  const SUFFIX := ".mcap"

  function LStrip(s: string): string {
    if s != [] && s[0] == '/' then LStrip(s[1..]) else s
  }

  predicate SlashFree(s: string) {
    forall i :: 0 <= i < |s| ==> s[i] != '/'
  }

  predicate EndsWith(s: string, suffix: string) {
    |suffix| <= |s| && s[|s| - |suffix|..] == suffix
  }

  /** `[^/]+` */
  predicate Segment(s: string) {
    s != [] && SlashFree(s)
  }

  /** `[^/]+\.mcap` */
  predicate LeafName(s: string) {
    SlashFree(s) && EndsWith(s, SUFFIX) && |s| > |SUFFIX|
  }

  predicate WellFormed(d: Dims) {
    && Segment(d.customer) && Segment(d.site) && Segment(d.robot)
    && Segment(d.source) && Segment(d.date) && LeafName(d.filename)
  }

  /** The length of the longest slash-free prefix. */
  function SegmentLength(s: string): (n: nat)
    ensures n <= |s| && SlashFree(s[..n])
    ensures n < |s| ==> s[n] == '/'
  {
    if s == [] || s[0] == '/' then 0
    else
      var n := SegmentLength(s[1..]);
      assert s[..n + 1] == [s[0]] + s[1..][..n];
      n + 1
  }

  /** Match `prefix([^/]+)/` at the start of s: the group and what follows the slash. */
  function Field(prefix: string, s: string): Option<(string, string)> {
    if !(prefix <= s) then None
    else
      var rest := s[|prefix|..];
      var n := SegmentLength(rest);
      if n == 0 || n == |rest| then None else Some((rest[..n], rest[n + 1..]))
  }

  /** Match `([^/]+\.mcap)$` against all of s. The dollar also matches before a final newline. */
  function Leaf(s: string): Option<string> {
    if LeafName(s) then Some(s)
    else if s != [] && s[|s| - 1] == '\n' && LeafName(s[..|s| - 1]) then Some(s[..|s| - 1])
    else None
  }

  function ParseHiveKey(key: string): Option<Dims> {
    match Field("customer=", LStrip(key)) case None => None case Some((customer, s1)) =>
    match Field("customer_site=", s1) case None => None case Some((site, s2)) =>
    match Field("robot=", s2) case None => None case Some((robot, s3)) =>
    match Field("source=", s3) case None => None case Some((source, s4)) =>
    match Field("date=", s4) case None => None case Some((date, s5)) =>
    match Leaf(s5) case None => None case Some(filename) =>
    Some(Dims(customer, site, robot, source, date, filename))
  }

  function Part(prefix: string, field: string, rest: string): string {
    prefix + field + "/" + rest
  }

  function RebuildTail(d: Dims, leaf: string): string {
    Part("customer=", d.customer, Part("customer_site=", d.site,
      Part("robot=", d.robot, Part("source=", d.source, Part("date=", d.date, leaf)))))
  }

  function RebuildHiveKey(d: Dims): string {
    RebuildTail(d, d.filename)
  }

  /** resolve_key_dims: the in-file key wins when there is one, and a parse is trusted only
      if rebuilding it gives back the key without its leading slashes. */
  function ResolveKeyDims(key: string, intended: Option<string>): Option<(Dims, string)> {
    var eff := if intended.Some? then intended.value else key;
    match ParseHiveKey(eff)
    case None => None
    case Some(d) => if RebuildHiveKey(d) != LStrip(eff) then None else Some((d, eff))
  }

  lemma {:induction false} SegmentLengthOf(f: string, rest: string)
    requires SlashFree(f)
    ensures SegmentLength(f + "/" + rest) == |f|
  {
    if f != [] {
      SegmentLengthOf(f[1..], rest);
      assert (f + "/" + rest)[1..] == f[1..] + "/" + rest;
    }
  }

  /** A field matches exactly the strings made of the prefix, a segment, a slash and a rest. */
  lemma FieldExact(prefix: string, s: string, f: string, rest: string)
    ensures Field(prefix, s) == Some((f, rest)) <==> Segment(f) && s == Part(prefix, f, rest)
  {
    if Segment(f) && s == Part(prefix, f, rest) {
      SegmentLengthOf(f, rest);
      assert s[|prefix|..] == f + "/" + rest;
      assert s[..|prefix|] == prefix;
      assert s[|prefix|..][..|f|] == f && s[|prefix|..][|f| + 1..] == rest;
    }
    if Field(prefix, s) == Some((f, rest)) {
      var tail := s[|prefix|..];
      var n := SegmentLength(tail);
      assert f == tail[..n] && rest == tail[n + 1..] && tail[n] == '/';
      assert tail == f + "/" + rest;
      assert prefix == s[..|prefix|];
      assert s == prefix + tail;
      assert prefix + (f + "/" + rest) == Part(prefix, f, rest);
    }
  }

  lemma LeafExact(s: string, f: string)
    ensures Leaf(s) == Some(f) <==> LeafName(f) && (s == f || s == f + "\n")
  {
    if LeafName(f) && s == f + "\n" {
      assert s[|s| - |SUFFIX|..][|SUFFIX| - 1] == '\n';
      assert s[..|s| - 1] == f;
    }
    if Leaf(s) == Some(f) && s != f {
      assert s == s[..|s| - 1] + [s[|s| - 1]];
    }
  }

  lemma ParseTail(key: string, d: Dims, leaf: string)
    requires WellFormed(d) && LStrip(key) == RebuildTail(d, leaf)
    ensures ParseHiveKey(key) == (match Leaf(leaf) case None => None
                                  case Some(f) => Some(d.(filename := f)))
  {
    var s5 := leaf;
    var s4 := Part("date=", d.date, s5);
    var s3 := Part("source=", d.source, s4);
    var s2 := Part("robot=", d.robot, s3);
    var s1 := Part("customer_site=", d.site, s2);
    FieldExact("customer=", LStrip(key), d.customer, s1);
    FieldExact("customer_site=", s1, d.site, s2);
    FieldExact("robot=", s2, d.robot, s3);
    FieldExact("source=", s3, d.source, s4);
    FieldExact("date=", s4, d.date, s5);
  }

  lemma ParsedTail(key: string, d: Dims) returns (leaf: string)
    requires ParseHiveKey(key) == Some(d)
    ensures WellFormed(d) && LStrip(key) == RebuildTail(d, leaf) && Leaf(leaf) == Some(d.filename)
  {
    var s1 := Field("customer=", LStrip(key)).value.1;
    var s2 := Field("customer_site=", s1).value.1;
    var s3 := Field("robot=", s2).value.1;
    var s4 := Field("source=", s3).value.1;
    leaf := Field("date=", s4).value.1;
    FieldExact("customer=", LStrip(key), d.customer, s1);
    FieldExact("customer_site=", s1, d.site, s2);
    FieldExact("robot=", s2, d.robot, s3);
    FieldExact("source=", s3, d.source, s4);
    FieldExact("date=", s4, d.date, leaf);
    LeafExact(leaf, d.filename);
  }

  lemma TailNewline(d: Dims, leaf: string)
    ensures RebuildTail(d, leaf + "\n") == RebuildTail(d, leaf) + "\n"
  {
    PartNewline("date=", d.date, leaf);
    PartNewline("source=", d.source, Part("date=", d.date, leaf));
    PartNewline("robot=", d.robot, Part("source=", d.source, Part("date=", d.date, leaf)));
    var s2 := Part("robot=", d.robot, Part("source=", d.source, Part("date=", d.date, leaf)));
    PartNewline("customer_site=", d.site, s2);
    PartNewline("customer=", d.customer, Part("customer_site=", d.site, s2));
  }

  lemma PartNewline(prefix: string, f: string, rest: string)
    ensures Part(prefix, f, rest + "\n") == Part(prefix, f, rest) + "\n"
  {
  }

  /** The parse alone: it accepts a rebuilt key, and also the same key with one newline added. */
  lemma ParseExact(key: string, d: Dims)
    ensures ParseHiveKey(key) == Some(d) <==>
        WellFormed(d) && (LStrip(key) == RebuildHiveKey(d) || LStrip(key) == RebuildHiveKey(d) + "\n")
  {
    TailNewline(d, d.filename);
    if ParseHiveKey(key) == Some(d) {
      var leaf := ParsedTail(key, d);
      LeafExact(leaf, d.filename);
    }
    if WellFormed(d) {
      LeafExact(d.filename, d.filename);
      LeafExact(d.filename + "\n", d.filename);
      if LStrip(key) == RebuildHiveKey(d) {
        ParseTail(key, d, d.filename);
      } else if LStrip(key) == RebuildHiveKey(d) + "\n" {
        ParseTail(key, d, d.filename + "\n");
      }
    }
  }

  /** The guarded resolver accepts exactly the rebuilt keys, up to leading slashes. */
  lemma ResolveExact(key: string, intended: Option<string>, d: Dims, eff: string)
    ensures ResolveKeyDims(key, intended) == Some((d, eff)) <==>
        eff == (if intended.Some? then intended.value else key)
        && WellFormed(d) && LStrip(eff) == RebuildHiveKey(d)
  {
    ParseExact(eff, d);
  }

  lemma CanonicalKeyUnslashed(d: Dims)
    ensures LStrip(RebuildHiveKey(d)) == RebuildHiveKey(d) && RebuildHiveKey(d)[0] != '/'
  {
    assert RebuildHiveKey(d)[0] == "customer="[0];
  }

  /** Rebuilding is injective on well-formed identities. */
  lemma RebuildInjective(a: Dims, b: Dims)
    requires WellFormed(a) && WellFormed(b) && RebuildHiveKey(a) == RebuildHiveKey(b)
    ensures a == b
  {
    CanonicalKeyUnslashed(a);
    ParseExact(RebuildHiveKey(a), a);
    ParseExact(RebuildHiveKey(a), b);
  }

  predicate Unslashed(key: string) {
    key == [] || key[0] != '/'
  }

  /** Without in-file keys and leading slashes the identity determines the key, so distinct
      accepted keys have distinct identities. */
  lemma KeyOfIdentity(key: string, d: Dims, eff: string)
    requires Unslashed(key) && ResolveKeyDims(key, None) == Some((d, eff))
    ensures eff == key == RebuildHiveKey(d) && WellFormed(d)
  {
    ResolveExact(key, None, d, eff);
    assert LStrip(key) == key;
  }

  /** With a leading slash they do not: two accepted keys share one identity. */
  lemma LeadingSlashAliases(d: Dims)
    requires WellFormed(d)
    ensures ResolveKeyDims(RebuildHiveKey(d), None) == Some((d, RebuildHiveKey(d)))
    ensures ResolveKeyDims("/" + RebuildHiveKey(d), None) == Some((d, "/" + RebuildHiveKey(d)))
  {
    CanonicalKeyUnslashed(d);
    assert ("/" + RebuildHiveKey(d))[1..] == RebuildHiveKey(d);
    ResolveExact(RebuildHiveKey(d), None, d, RebuildHiveKey(d));
    ResolveExact("/" + RebuildHiveKey(d), None, d, "/" + RebuildHiveKey(d));
  }

  // ---- the template, letter by letter ----

  lemma TemplateExact(d: Dims)
    ensures RebuildHiveKey(d) ==
        "customer=" + d.customer + "/" + ("customer_site=" + d.site + "/" + ("robot=" + d.robot + "/"
        + ("source=" + d.source + "/" + ("date=" + d.date + "/" + d.filename))))
  {
  }

  predicate Plain(s: string) {
    s != [] && forall i :: 0 <= i < |s| ==> s[i] != '/'
  }

  /** The fields are non-empty without slashes, and the file name has at least one character
      before its ".mcap". */
  lemma WellFormedExact(d: Dims)
    ensures WellFormed(d) <==>
      && Plain(d.customer) && Plain(d.site) && Plain(d.robot) && Plain(d.source) && Plain(d.date)
      && Plain(d.filename) && |d.filename| >= 6 && d.filename[|d.filename| - 5..] == ".mcap"
  {
  }

  /** Stripping takes the leading slashes, all of them, and nothing else. */
  lemma {:induction false} StripExact(s: string)
    ensures |LStrip(s)| <= |s| && s[|s| - |LStrip(s)|..] == LStrip(s)
    ensures LStrip(s) == [] || LStrip(s)[0] != '/'
    ensures forall i :: 0 <= i < |s| - |LStrip(s)| ==> s[i] == '/'
  {
    if s != [] && s[0] == '/' {
      StripExact(s[1..]);
      assert s == [s[0]] + s[1..];
    }
  }
}
