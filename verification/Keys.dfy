/**
 * Object keys. Every object of the bucket lives under a formatted string; the models elsewhere use the
 * structured key, and this module shows that the strings distinguish exactly what the structure does.
 */
module Keys {

  /** A row id (a UUID in the database): a string without a slash. */
  type Id = s: string | '/' !in s witness ""

  /** Lower-case hexadecimal SHA-256. */
  type Hash = s: string | |s| == 64 witness seq(64, _ => '0')

  type Prefix = s: string | |s| == 16 witness seq(16, _ => '0')

  datatype ObjectKey =
    | Original(doc: Id)
    | Page(doc: Id, num: nat)
    | File(user: Id, prefix: Prefix, name: string)

  /** Spaces become underscores. */
  function Sanitize(base: string): string {
    seq(|base|, i requires 0 <= i < |base| => if base[i] == ' ' then '_' else base[i])
  }

  function BuildObjectKey(user: Id, hash: Hash, base: string): ObjectKey {
    File(user, hash[..16], Sanitize(base))
  }

  function Digit(n: nat): char
    requires n < 10
  {
    '0' + n as char
  }

  function Decimal(n: nat): string {
    if n < 10 then [Digit(n)] else Decimal(n / 10) + [Digit(n % 10)]
  }

  function Format(k: ObjectKey): string {
    match k
    case Original(doc) => "documents/" + (doc + "/" + "original.pdf")
    case Page(doc, num) => "documents/" + (doc + "/" + ("pages/" + (Decimal(num) + ".pdf")))
    case File(user, prefix, name) => "users/" + (user + "/" + (prefix + ("/" + name)))
  }

  lemma {:induction false} DecimalInjective(m: nat, n: nat)
    requires Decimal(m) == Decimal(n)
    ensures m == n
    decreases m
  {
    var s, t := Decimal(m), Decimal(n);
    assert s[|s| - 1] == Digit(m % 10) && t[|t| - 1] == Digit(n % 10);
    if m >= 10 && n >= 10 {
      assert Decimal(m / 10) == s[..|s| - 1] == t[..|t| - 1] == Decimal(n / 10);
      DecimalInjective(m / 10, n / 10);
    } else {
      DecimalNonempty(m / 10);
      DecimalNonempty(n / 10);
    }
  }

  /** The number that a string of digits denotes. */
  function Value(s: string): int {
    if s == [] then 0 else 10 * Value(s[..|s| - 1]) + (s[|s| - 1] as int - '0' as int)
  }

  /** The decimal string of a number consists of digits, denotes the number and has no leading zero. */
  lemma {:induction false} DecimalReads(n: nat)
    ensures Value(Decimal(n)) == n
    ensures forall c | c in Decimal(n) :: '0' <= c <= '9'
    ensures |Decimal(n)| > 0 && (Decimal(n)[0] == '0' ==> n == 0)
  {
    if n < 10 {
      assert Decimal(n)[..0] == [];
    } else {
      DecimalReads(n / 10);
      var s := Decimal(n);
      assert s[..|s| - 1] == Decimal(n / 10);
    }
  }

  /** No space remains, and nothing else changes. */
  lemma SanitizeOnlySpaces(base: string)
    ensures |Sanitize(base)| == |base| && ' ' !in Sanitize(base)
    ensures forall i | 0 <= i < |base| && base[i] != ' ' :: Sanitize(base)[i] == base[i]
    ensures forall i | 0 <= i < |base| && base[i] == ' ' :: Sanitize(base)[i] == '_'
  {
  }

  lemma LayoutOfPages()
    ensures Format(Page("d", 12)) == "documents/d/pages/12.pdf"
  {
    assert Decimal(12) == Decimal(1) + [Digit(2)] == "12";
  }

  lemma LayoutOfOriginals()
    ensures Format(Original("d")) == "documents/d/original.pdf"
  {
  }

  lemma LayoutOfFiles(prefix: Prefix)
    requires prefix == "0123456789abcdef"
    ensures Format(File("u", prefix, "f")) == "users/u/0123456789abcdef/f"
  {
  }

  lemma DecimalNonempty(n: nat)
    ensures |Decimal(n)| > 0
  {
  }

  lemma PrefixCancel(p: string, a: string, b: string)
    requires p + a == p + b
    ensures a == b
  {
    assert (p + a)[|p|..] == a && (p + b)[|p|..] == b;
  }

  lemma SuffixCancel(a: string, b: string, q: string)
    requires a + q == b + q
    ensures a == b
  {
    assert |a + q| == |b + q|;
    assert (a + q)[..|a|] == a && (b + q)[..|b|] == b;
  }

  /** The first slash of a string determines the slash-free part before it. */
  lemma SplitAtSlash(a: Id, x: string, b: Id, y: string)
    requires a + "/" + x == b + "/" + y
    ensures a == b && x == y
  {
    var s, t := a + "/" + x, b + "/" + y;
    assert s[|a|] == '/' && t[|b|] == '/';
    assert forall i | 0 <= i < |a| :: s[i] == a[i];
    assert forall i | 0 <= i < |b| :: t[i] == b[i];
    assert |a| == |b|;
    assert s[..|a|] == a && t[..|b|] == b;
    assert s[|a| + 1..] == x && t[|b| + 1..] == y;
  }

  /** Two objects of the bucket, of either kind and of any owner, never share a formatted key. */
  lemma FormatInjective(k: ObjectKey, l: ObjectKey)
    requires Format(k) == Format(l)
    ensures k == l
  {
    assert Format(k)[0] == if k.File? then 'u' else 'd';
    assert Format(l)[0] == if l.File? then 'u' else 'd';
    if k.File? {
      PrefixCancel("users/", k.user + "/" + (k.prefix + ("/" + k.name)), l.user + "/" + (l.prefix + ("/" + l.name)));
      SplitAtSlash(k.user, k.prefix + ("/" + k.name), l.user, l.prefix + ("/" + l.name));
      var s, t := k.prefix + ("/" + k.name), l.prefix + ("/" + l.name);
      assert s[..16] == k.prefix && t[..16] == l.prefix;
      assert s[17..] == k.name && t[17..] == l.name;
    } else {
      PrefixCancel("documents/", k.doc + "/" + Tail(k), l.doc + "/" + Tail(l));
      SplitAtSlash(k.doc, Tail(k), l.doc, Tail(l));
      assert Tail(k)[0] == if k.Page? then 'p' else 'o';
      assert Tail(l)[0] == if l.Page? then 'p' else 'o';
      if k.Page? {
        PrefixCancel("pages/", Decimal(k.num) + ".pdf", Decimal(l.num) + ".pdf");
        SuffixCancel(Decimal(k.num), Decimal(l.num), ".pdf");
        DecimalInjective(k.num, l.num);
      }
    }
  }

  function Tail(k: ObjectKey): string
    requires !k.File?
  {
    if k.Original? then "original.pdf" else "pages/" + (Decimal(k.num) + ".pdf")
  }

  lemma FormatInjectiveForAll()
    ensures forall k, l | Format(k) == Format(l) :: k == l
  {
    forall k, l | Format(k) == Format(l) ensures k == l {
      FormatInjective(k, l);
    }
  }

  ghost predicate Injective<K(!new)>(f: K -> string) {
    forall k, l | f(k) == f(l) :: k == l
  }

  /** A map with its keys renamed by an injective naming. */
  ghost function Renamed<K(!new), V>(f: K -> string, m: map<K, V>): (r: map<string, V>)
    requires Injective(f)
    ensures forall k | k in m :: f(k) in r && r[f(k)] == m[k]
    ensures forall s | s in r :: exists k :: k in m && f(k) == s
  {
    map k | k in m :: f(k) := m[k]
  }

  lemma RenamedPut<K(!new), V>(f: K -> string, m: map<K, V>, k: K, v: V)
    requires Injective(f)
    ensures Renamed(f, m[k := v]) == Renamed(f, m)[f(k) := v]
  {
    var r, put := Renamed(f, m), Renamed(f, m[k := v]);
    forall s ensures s in put <==> s in r || s == f(k) {
      if s in put {
        var l :| l in m[k := v] && f(l) == s;
      }
      if s in r {
        var l :| l in m && f(l) == s;
        assert l in m[k := v];
      }
      assert k in m[k := v];
    }
    forall s | s in put ensures put[s] == r[f(k) := v][s] {
      var l :| l in m[k := v] && f(l) == s;
    }
  }

  lemma RenamedRemove<K(!new), V>(f: K -> string, m: map<K, V>, k: K)
    requires Injective(f)
    ensures Renamed(f, m - {k}) == Renamed(f, m) - {f(k)}
  {
    var r, remove := Renamed(f, m), Renamed(f, m - {k});
    forall s ensures s in remove <==> s in r && s != f(k) {
      if s in remove {
        var l :| l in m - {k} && f(l) == s;
      }
      if s in r && s != f(k) {
        var l :| l in m && f(l) == s;
        assert l in m - {k};
      }
    }
    forall s | s in remove ensures remove[s] == r[s] {
      var l :| l in m - {k} && f(l) == s;
    }
  }

  /** The bucket as the store sees it: keyed by the formatted strings. */
  ghost function ByString<V>(bucket: map<ObjectKey, V>): map<string, V> {
    FormatInjectiveForAll();
    Renamed(Format, bucket)
  }

  /** Looking up, writing and removing by string do what they do by structured key. */
  lemma BucketByString<V>(bucket: map<ObjectKey, V>, k: ObjectKey, v: V)
    ensures k in bucket <==> Format(k) in ByString(bucket)
    ensures k in bucket ==> ByString(bucket)[Format(k)] == bucket[k]
    ensures ByString(bucket[k := v]) == ByString(bucket)[Format(k) := v]
    ensures ByString(bucket - {k}) == ByString(bucket) - {Format(k)}
  {
    FormatInjectiveForAll();
    RenamedPut(Format, bucket, k, v);
    RenamedRemove(Format, bucket, k);
  }

  /** Distinct hashes give distinct keys unless their first sixteen digits agree. */
  lemma SameKeySamePrefix(u: Id, g: Hash, a: string, v: Id, h: Hash, b: string)
    requires Format(BuildObjectKey(u, g, a)) == Format(BuildObjectKey(v, h, b))
    ensures u == v && g[..16] == h[..16] && Sanitize(a) == Sanitize(b)
  {
    FormatInjective(BuildObjectKey(u, g, a), BuildObjectKey(v, h, b));
  }
}
