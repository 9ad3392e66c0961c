/** `clean_filename`: the display key shared by all engines' tables, i.e. the file name with
    its trailing hash- or UUID-like tokens removed and its extension kept. */
module FilenameCleaner {
  import opened Text

  // ---------- os.path.basename / os.path.splitext (POSIX) ----------

  /** The text after the last '/' (`posixpath.basename`). */
  function Basename(path: string): (base: string)
    ensures Free(base, '/')
  {
    path[RFind(path, '/') + 1..]
  }

  /** The base name is the part of the path after its last '/' (all of it when there is none). */
  lemma BasenameIsLastComponent(path: string)
    ensures var base := Basename(path);
      |base| <= |path| && base == path[|path| - |base|..] &&
      (|base| < |path| ==> path[|path| - |base| - 1] == '/')
  {
  }

  /** Some character of `s[lo..hi]` is not a dot. */
  predicate HasNonDot(s: string, lo: int, hi: int)
    requires 0 <= lo && hi <= |s|
  {
    exists k :: lo <= k < hi && s[k] != '.'
  }

  /** `posixpath.splitext` of a path component (no '/'): the extension starts at the last
      dot, unless everything before that dot is dots (".bashrc", "..png"). */
  function SplitExt(name: string): (parts: (string, string))
    requires Free(name, '/')
    ensures parts.0 + parts.1 == name
    ensures parts.1 == [] || parts.1[0] == '.'
    ensures forall j :: 0 < j < |parts.1| ==> parts.1[j] != '.'
    ensures parts.1 != [] <==> exists i, k :: 0 <= k < i < |name| && name[k] != '.' && name[i] == '.'
  {
    var dot := RFind(name, '.');
    if dot > 0 && HasNonDot(name, 0, dot) then
      assert name == name[..dot] + name[dot..];
      (name[..dot], name[dot..])
    else (name, "")
  }

  // ---------- re.split(r"[\s._-]+", root) ----------

  /** A character of the token-separator class `[\s._-]`. */
  predicate IsSep(c: char) {
    IsSpace(c) || c == '.' || c == '_' || c == '-'
  }

  predicate NoSep(t: string) {
    forall i :: 0 <= i < |t| ==> !IsSep(t[i])
  }

  /** Index of the first separator of `s`, or `|s|`. */
  function FirstSep(s: string): (i: nat)
    ensures i <= |s|
    ensures NoSep(s[..i])
    ensures i < |s| ==> IsSep(s[i])
  {
    if |s| == 0 || IsSep(s[0]) then 0 else 1 + FirstSep(s[1..])
  }

  /** `s` without its leading separators. */
  function DropSeps(s: string): (r: string)
    ensures |r| <= |s|
    ensures |s| > 0 && IsSep(s[0]) ==> |r| < |s|
  {
    if |s| > 0 && IsSep(s[0]) then DropSeps(s[1..]) else s
  }

  /** Python's `re.split(r"[\s._-]+", s)`: the pieces between maximal runs of separators.
      A leading (trailing) run yields a leading (trailing) empty piece. */
  function Tokens(s: string): (ts: seq<string>)
    ensures |ts| >= 1
    ensures forall k :: 0 <= k < |ts| ==> NoSep(ts[k])
    decreases |s|
  {
    var i := FirstSep(s);
    if i == |s| then [s]
    else [s[..i]] + Tokens(DropSeps(s[i..]))
  }

  /** Every character of `r` is a separator. */
  predicate AllSep(r: string) {
    forall i :: 0 <= i < |r| ==> IsSep(r[i])
  }

  /** `DropSeps(s)` is an end of `s`. */
  lemma {:induction false} DropSepsSuffix(s: string)
    ensures DropSeps(s) == s[|s| - |DropSeps(s)|..]
    decreases |s|
  {
    if |s| > 0 && IsSep(s[0]) {
      DropSepsSuffix(s[1..]);
      assert s[1..][|s[1..]| - |DropSeps(s)|..] == s[|s| - |DropSeps(s)|..];
    }
  }

  /** What `DropSeps(s)` drops is a run of separators. */
  lemma {:induction false} DropSepsRun(s: string)
    ensures AllSep(s[..|s| - |DropSeps(s)|])
    decreases |s|
  {
    if |s| > 0 && IsSep(s[0]) {
      DropSepsRun(s[1..]);
      var n := |s| - |DropSeps(s)|;
      assert forall j :: 1 <= j < n ==> s[..n][j] == s[1..][..n - 1][j - 1];
    }
  }

  /** Slices of a slice, and a sequence cut in three. */
  lemma Slices<T>(s: seq<T>, i: nat, n: nat)
    requires i + n <= |s|
    ensures s[i..][..n] == s[i..i + n] && s[i..][n..] == s[i + n..]
    ensures s == s[..i] + s[i..i + n] + s[i + n..]
  {
  }

  /** The tokens with `runs[j]` written between `ts[j]` and `ts[j + 1]`. */
  function Rebuild(ts: seq<string>, runs: seq<string>): string
    requires |ts| >= 1 && |runs| == |ts| - 1
  {
    if |ts| == 1 then ts[0] else ts[0] + runs[0] + Rebuild(ts[1..], runs[1..])
  }

  lemma RebuildCons(t: string, run: string, ts: seq<string>, runs: seq<string>)
    requires |ts| >= 1 && |runs| == |ts| - 1
    ensures Rebuild([t] + ts, [run] + runs) == t + run + Rebuild(ts, runs)
  {
    assert ([t] + ts)[1..] == ts && ([run] + runs)[1..] == runs;
  }

  /** Where the input has a separator, it is its first token, the run of separators after
      it, and the rest, whose tokens are the remaining tokens. */
  lemma SplitFirst(s: string)
    requires FirstSep(s) < |s|
    ensures var i := FirstSep(s);
            var rest := DropSeps(s[i..]);
            && i < |s| - |rest|
            && AllSep(s[i..|s| - |rest|])
            && s == s[..i] + s[i..|s| - |rest|] + rest
            && Tokens(s) == [s[..i]] + Tokens(rest)
  {
    var i := FirstSep(s);
    var t := s[i..];
    var rest := DropSeps(t);
    var n := |t| - |rest|;
    DropSepsSuffix(t);
    DropSepsRun(t);
    Slices(s, i, n);
  }

  /** `ts` with a non-empty run of separators between consecutive tokens spells `s`. */
  predicate Spells(ts: seq<string>, runs: seq<string>, s: string) {
    && |ts| >= 1 && |runs| == |ts| - 1
    && (forall j :: 0 <= j < |runs| ==> |runs[j]| > 0 && AllSep(runs[j]))
    && Rebuild(ts, runs) == s
  }

  /** The tokens, with a non-empty run of separators between consecutive ones, spell the
      input again. As no token holds a separator, each run is a maximal one, so this is the
      decomposition `re.split` makes, with empty tokens at a leading or trailing run. */
  lemma {:induction false} TokensRebuild(s: string)
    ensures exists runs :: Spells(Tokens(s), runs, s)
    decreases |s|
  {
    var i := FirstSep(s);
    if i == |s| {
      assert Tokens(s) == [s];
      assert Spells(Tokens(s), [], s);
    } else {
      SplitFirst(s);
      var rest := DropSeps(s[i..]);
      var run := s[i..|s| - |rest|];
      TokensRebuild(rest);
      var more :| Spells(Tokens(rest), more, rest);
      SpellsCons(s[..i], run, Tokens(rest), more, rest);
      assert Spells(Tokens(s), [run] + more, s);
    }
  }

  /** A token and a run of separators in front of a spelled rest spell the whole. */
  lemma SpellsCons(t: string, run: string, ts: seq<string>, more: seq<string>, rest: string)
    requires Spells(ts, more, rest) && |run| > 0 && AllSep(run)
    ensures Spells([t] + ts, [run] + more, t + run + rest)
  {
    var runs := [run] + more;
    forall j | 0 <= j < |runs| ensures |runs[j]| > 0 && AllSep(runs[j]) {
      if j > 0 { assert runs[j] == more[j - 1]; }
    }
    RebuildCons(t, run, ts, more);
  }

  /** Joining non-empty separator-free tokens with '_' and splitting again gives them back. */
  lemma {:induction false} TokensOfJoin(ts: seq<string>)
    requires |ts| >= 1
    requires forall k :: 0 <= k < |ts| ==> |ts[k]| > 0 && NoSep(ts[k])
    ensures Tokens(Join(ts, '_')) == ts
  {
    if |ts| == 1 {
      FirstSepOfNoSep(ts[0], []);
      assert ts[0] + [] == ts[0];
    } else {
      var tail := Join(ts[1..], '_');
      JoinStartsWith(ts[1..]);
      TokensCons(ts[0], '_', tail);
      TokensOfJoin(ts[1..]);
      assert [ts[0]] + ts[1..] == ts;
    }
  }

  /** A separator-free piece, one separator and a rest that does not start with a separator
      split into the piece followed by the rest's tokens. */
  lemma TokensCons(a: string, c: char, rest: string)
    requires NoSep(a) && IsSep(c)
    requires |rest| > 0 ==> !IsSep(rest[0])
    ensures Tokens(a + [c] + rest) == [a] + Tokens(rest)
  {
    var s := a + [c] + rest;
    assert s == a + ([c] + rest);
    FirstSepOfNoSep(a, [c] + rest);
    assert s[..|a|] == a;
    assert s[|a|..] == [c] + rest;
    assert ([c] + rest)[1..] == rest;
    assert DropSeps([c] + rest) == rest;
  }

  lemma {:induction false} FirstSepOfNoSep(a: string, b: string)
    requires NoSep(a)
    requires |b| > 0 ==> IsSep(b[0])
    ensures FirstSep(a + b) == |a|
  {
    if |a| > 0 {
      assert (a + b)[1..] == a[1..] + b;
      FirstSepOfNoSep(a[1..], b);
    } else {
      assert a + b == b;
    }
  }

  lemma {:induction false} JoinStartsWith(ts: seq<string>)
    requires |ts| >= 1 && |ts[0]| > 0
    ensures |Join(ts, '_')| > 0 && Join(ts, '_')[0] == ts[0][0]
  {
  }

  // ---------- UUID_LIKE / HASH_LIKE ----------

  predicate IsHex(c: char) {
    ('0' <= c <= '9') || ('a' <= c <= 'f') || ('A' <= c <= 'F')
  }

  predicate AllHex(s: string) {
    forall i :: 0 <= i < |s| ==> IsHex(s[i])
  }

  /** Full match of `[a-f0-9]{6,32}$`, case-insensitively. */
  predicate HashLike(t: string) {
    6 <= |t| <= 32 && AllHex(t)
  }

  /** The position after an optional '_' or '-' at `p` (the `[_-]?` of the UUID pattern).
      Since a hex digit is never '_' or '-', taking the separator whenever it is there is
      the only way the pattern can match. */
  function SkipDash(s: string, p: nat): (q: nat)
    ensures q == p || (p < |s| && (s[p] == '_' || s[p] == '-') && q == p + 1)
  {
    if p < |s| && (s[p] == '_' || s[p] == '-') then p + 1 else p
  }

  /** `s[lo..hi]` exists and consists of hex digits. */
  predicate HexRun(s: string, lo: nat, hi: nat) {
    lo <= hi <= |s| && forall i :: lo <= i < hi ==> IsHex(s[i])
  }

  /** Number of hex digits in group `g` of a UUID (8-4-4-4-12). */
  function GroupLen(g: nat): nat {
    if g == 0 then 8 else if g < 4 then 4 else 12
  }

  /** Number of hex digits in groups `g` to 4. */
  function RestLen(g: nat): nat
    requires g <= 4
    decreases 4 - g
  {
    if g == 4 then 12 else GroupLen(g) + RestLen(g + 1)
  }

  /** `s` from position `p` on matches the UUID groups from group `g` on: `GroupLen(g)` hex
      digits, and, before the last group, one optional '-' or '_' and the remaining groups. */
  predicate UuidFrom(s: string, p: nat, g: nat)
    requires g <= 4
    decreases 4 - g
  {
    HexRun(s, p, p + GroupLen(g)) &&
    if g == 4 then |s| == p + GroupLen(g) else UuidFrom(s, SkipDash(s, p + GroupLen(g)), g + 1)
  }

  /** Full match of `[_-]?[a-f0-9]{8}[-_]?(?:[a-f0-9]{4}[-_]?){3}[a-f0-9]{12}`,
      case-insensitively. */
  predicate UuidLike(t: string) {
    UuidFrom(t, SkipDash(t, 0), 0)
  }

  /** The test that ends the kept prefix of tokens. */
  predicate HashToken(t: string) {
    UuidLike(t) || HashLike(t)
  }

  /** On a token (which has no '_' or '-') the UUID pattern only matches 32 hex digits, which
      the hash pattern matches as well; so on tokens the test is "6 to 32 hex digits". */
  lemma UuidTokenIsHash(t: string)
    requires NoSep(t)
    ensures HashToken(t) <==> HashLike(t)
  {
    if UuidLike(t) {
      UuidFromOfToken(t, 0, 0);
    }
  }

  /** Without separators, the groups from `g` on are one run of `RestLen(g)` hex digits. */
  lemma {:induction false} UuidFromOfToken(s: string, p: nat, g: nat)
    requires g <= 4 && NoSep(s) && UuidFrom(s, p, g)
    ensures |s| == p + RestLen(g) && HexRun(s, p, |s|)
    decreases 4 - g
  {
    var q := p + GroupLen(g);
    if g < 4 {
      assert SkipDash(s, q) == q by {
        if q < |s| { assert !IsSep(s[q]); }
      }
      UuidFromOfToken(s, q, g + 1);
    }
  }

  /** Short hex-looking tokens and over-long hex runs are not hashes. */
  lemma NotHashes()
    ensures !HashToken("v5") && !HashToken("600") && !HashToken("")
    ensures HashToken("123abc") && HashToken("ba41dfa2")
  {
    HexIsNoSep("600");
    UuidTokenIsHash("600");
    UuidTokenIsHash("");
    assert !IsSep('v') && !IsSep('5');
    UuidTokenIsHash("v5");
  }

  /** A run of more than 32 hex digits is no hash: neither pattern matches it. */
  lemma LongHexRunIsNoHash(t: string)
    requires AllHex(t) && |t| > 32
    ensures !HashToken(t)
  {
    HexIsNoSep(t);
    UuidTokenIsHash(t);
  }

  lemma HexIsNoSep(t: string)
    requires AllHex(t)
    ensures NoSep(t)
  {
    forall i | 0 <= i < |t|
      ensures !IsSep(t[i])
    {
      assert IsHex(t[i]);
    }
  }

  // ---------- clean_filename ----------

  /** The tokens in front of the first hash-like one (the `for ... break` loop). */
  function KeepBeforeHash(ts: seq<string>): (kept: seq<string>)
    ensures |kept| <= |ts| && forall i :: 0 <= i < |kept| ==> kept[i] == ts[i]
    ensures forall i :: 0 <= i < |kept| ==> !HashToken(kept[i])
    ensures |kept| < |ts| ==> HashToken(ts[|kept|])
  {
    if |ts| == 0 || HashToken(ts[0]) then []
    else [ts[0]] + KeepBeforeHash(ts[1..])
  }

  /** The kept prefix is determined by the first hash-like token: it is exactly the
      tokens before it (or all of them when there is none). */
  lemma {:induction false} KeepBeforeHashAt(ts: seq<string>, n: nat)
    requires n <= |ts|
    requires forall i :: 0 <= i < n ==> !HashToken(ts[i])
    requires n < |ts| ==> HashToken(ts[n])
    ensures KeepBeforeHash(ts) == ts[..n]
  {
    if n > 0 {
      KeepBeforeHashAt(ts[1..], n - 1);
      assert ts[..n] == [ts[0]] + ts[1..][..n - 1];
    }
  }

  /** The stem and extension `clean_filename` works on. */
  function Root(name: string): string { SplitExt(Basename(name)).0 }
  function Ext(name: string): string { SplitExt(Basename(name)).1 }

  /** The new stem: the kept tokens joined by '_', or the old stem when none is kept. */
  function NewRoot(root: string): string {
    var kept := KeepBeforeHash(Tokens(root));
    if |kept| > 0 then Join(kept, '_') else root
  }

  /** `clean_filename(name)`. */
  function Clean(name: string): string {
    NewRoot(Root(name)) + Ext(name)
  }

  // ---------- properties ----------

  /** Only the last path component matters. */
  lemma IgnoresDirectory(dir: string, name: string)
    requires Free(name, '/')
    ensures Clean(dir + "/" + name) == Clean(name)
    ensures Clean(name) == Clean(Basename(name))
  {
    var p := dir + "/" + name;
    assert p[|dir|] == '/';
    assert Basename(p) == name;
    assert Basename(name) == name;
  }

  /** The result is a stem followed by the extension `splitext` found, unchanged. */
  lemma KeepsExtension(name: string)
    ensures |Ext(name)| <= |Clean(name)|
    ensures Clean(name)[|Clean(name)| - |Ext(name)|..] == Ext(name)
  {
  }

  /** When the first token is not hash-like, the result is the longest hash-free run of
      leading tokens joined by '_', followed by the extension; later tokens are dropped. */
  lemma TruncatesAtFirstHash(name: string)
    requires !HashToken(Tokens(Root(name))[0])
    ensures var ts := Tokens(Root(name));
      exists n :: 0 < n <= |ts|
        && (forall i :: 0 <= i < n ==> !HashToken(ts[i]))
        && (n < |ts| ==> HashToken(ts[n]))
        && Clean(name) == Join(ts[..n], '_') + Ext(name)
  {
    var ts := Tokens(Root(name));
    var kept := KeepBeforeHash(ts);
    assert |kept| > 0;
    var n := |kept|;
    assert kept == ts[..n];
    assert NewRoot(Root(name)) == Join(kept, '_');
    assert Clean(name) == Join(ts[..n], '_') + Ext(name);
    assert forall i :: 0 <= i < n ==> !HashToken(ts[i]);
  }

  /** When even the first token is hash-like nothing survives, and the base name is
      returned as it was. */
  lemma FallsBackToBasename(name: string)
    requires HashToken(Tokens(Root(name))[0])
    ensures Clean(name) == Basename(name)
  {
  }

  /** Outside the fallback, the stem holds no whitespace, dot or hyphen: separators become
      single underscores. */
  lemma StemHasNoSeparators(name: string)
    requires !HashToken(Tokens(Root(name))[0])
    ensures var stem := Clean(name)[..|Clean(name)| - |Ext(name)|];
      forall i :: 0 <= i < |stem| ==> !IsSpace(stem[i]) && stem[i] != '.' && stem[i] != '-'
  {
    var kept := KeepBeforeHash(Tokens(Root(name)));
    assert |kept| > 0;
    var stem := Join(kept, '_');
    assert NewRoot(Root(name)) == stem;
    assert Clean(name) == stem + Ext(name);
    assert Clean(name)[..|Clean(name)| - |Ext(name)|] == stem;
    JoinOnlyUnderscores(kept);
    forall i | 0 <= i < |stem|
      ensures !IsSpace(stem[i]) && stem[i] != '.' && stem[i] != '-'
    {
      assert !IsSep(stem[i]) || stem[i] == '_';
    }
  }

  lemma {:induction false} JoinOnlyUnderscores(ts: seq<string>)
    requires forall k :: 0 <= k < |ts| ==> NoSep(ts[k])
    ensures forall i :: 0 <= i < |Join(ts, '_')| ==> !IsSep(Join(ts, '_')[i]) || Join(ts, '_')[i] == '_'
  {
    if |ts| > 1 {
      JoinOnlyUnderscores(ts[1..]);
      var s := Join(ts, '_');
      var tail := Join(ts[1..], '_');
      assert s == ts[0] + ['_'] + tail;
      forall i | 0 <= i < |s|
        ensures !IsSep(s[i]) || s[i] == '_'
      {
        if i < |ts[0]| { assert s[i] == ts[0][i]; }
        else if i > |ts[0]| { assert s[i] == tail[i - |ts[0]| - 1]; }
      }
    }
  }

  // ---------- worked examples ----------

  /** `splitext` of a name with one final dot-extension and a stem that is not all dots. */
  lemma SplitExtAtLastDot(stem: string, ext: string)
    requires Free(stem, '/') && Free(ext, '/') && Free(ext, '.')
    requires exists k :: 0 <= k < |stem| && stem[k] != '.'
    ensures Basename(stem + "." + ext) == stem + "." + ext
    ensures SplitExt(stem + "." + ext) == (stem, "." + ext)
  {
    var p := stem + "." + ext;
    assert p[|stem|] == '.';
    assert Free(p, '/');
    var dot := RFind(p, '.');
    assert forall j :: |stem| < j < |p| ==> p[j] == ext[j - |stem| - 1];
    assert dot == |stem|;
    var k :| 0 <= k < |stem| && stem[k] != '.';
    assert p[k] == stem[k];
    assert HasNonDot(p, 0, dot);
    assert p[..dot] == stem && p[dot..] == "." + ext;
  }

  /** A token with a character other than a hex digit is kept. */
  lemma WordIsNoHash(t: string, k: nat)
    requires NoSep(t) && k < |t| && !IsHex(t[k])
    ensures !HashToken(t)
  {
    UuidTokenIsHash(t);
  }

  lemma Join3(a: string, b: string, c: string)
    ensures Join([a, b, c], '_') == a + "_" + b + "_" + c
  {
    assert [a, b, c][1..] == [b, c];
    assert [b, c][1..] == [c];
    assert Join([b, c], '_') == b + "_" + c;
    assert Join([a, b, c], '_') == a + "_" + (b + "_" + c);
  }

  lemma Join4(a: string, b: string, c: string, d: string)
    ensures Join([a, b, c, d], '_') == a + "_" + b + "_" + c + "_" + d
  {
    assert [a, b, c, d][1..] == [b, c, d];
    Join3(b, c, d);
    assert Join([a, b, c, d], '_') == a + "_" + (b + "_" + c + "_" + d);
  }

  /** A token made only of ASCII letters and digits. */
  predicate Plain(t: string) {
    forall i :: 0 <= i < |t| ==> ('0' <= t[i] <= '9') || ('a' <= t[i] <= 'z') || ('A' <= t[i] <= 'Z')
  }

  lemma PlainIsFree(t: string)
    requires Plain(t)
    ensures NoSep(t) && Free(t, '/') && Free(t, '.')
  {
    forall i | 0 <= i < |t|
      ensures !IsSep(t[i]) && t[i] != '/'
    {
    }
  }

  lemma {:induction false} JoinFree(ts: seq<string>, sep: char, c: char)
    requires sep != c
    requires forall k :: 0 <= k < |ts| ==> Free(ts[k], c)
    ensures Free(Join(ts, sep), c)
  {
    if |ts| > 1 {
      JoinFree(ts[1..], sep, c);
      var s := Join(ts, sep);
      var tail := Join(ts[1..], sep);
      assert s == ts[0] + [sep] + tail;
      forall i | 0 <= i < |s|
        ensures s[i] != c
      {
        if i < |ts[0]| { assert s[i] == ts[0][i]; }
        else if i > |ts[0]| { assert s[i] == tail[i - |ts[0]| - 1]; }
      }
    }
  }

  /** For a name made of plain tokens joined by '_' and one plain extension, the cleaner
      sees exactly those tokens and that extension. */
  lemma CleanPlainName(ts: seq<string>, ext: string)
    requires |ts| >= 1 && forall k :: 0 <= k < |ts| ==> |ts[k]| > 0 && Plain(ts[k])
    requires Plain(ext)
    ensures Root(Join(ts, '_') + "." + ext) == Join(ts, '_')
    ensures Ext(Join(ts, '_') + "." + ext) == "." + ext
    ensures Tokens(Join(ts, '_')) == ts
  {
    var root := Join(ts, '_');
    forall k | 0 <= k < |ts|
      ensures NoSep(ts[k]) && Free(ts[k], '/') && Free(ts[k], '.')
    {
      PlainIsFree(ts[k]);
    }
    PlainIsFree(ext);
    JoinFree(ts, '_', '/');
    JoinStartsWith(ts);
    assert root[0] == ts[0][0];
    SplitExtAtLastDot(root, ext);
    TokensOfJoin(ts);
  }

  /** The cleaner's result on such a name: the plain tokens before the first hash-like one,
      or the whole name when the first token is hash-like. */
  lemma CleanOfPlainName(ts: seq<string>, ext: string, name: string)
    requires |ts| >= 1 && forall k :: 0 <= k < |ts| ==> |ts[k]| > 0 && Plain(ts[k])
    requires Plain(ext)
    requires name == Join(ts, '_') + "." + ext
    ensures Clean(name) == (if HashToken(ts[0]) then Join(ts, '_')
                            else Join(KeepBeforeHash(ts), '_')) + "." + ext
  {
    CleanPlainName(ts, ext);
  }

  /** The same with the first hash-like token given by position: the kept tokens are
      exactly the ones before it. */
  lemma CleanOfPlainNameAt(ts: seq<string>, ext: string, name: string, n: nat)
    requires |ts| >= 1 && forall k :: 0 <= k < |ts| ==> |ts[k]| > 0 && Plain(ts[k])
    requires Plain(ext)
    requires name == Join(ts, '_') + "." + ext
    requires 0 < n <= |ts|
    requires forall i :: 0 <= i < n ==> !HashToken(ts[i])
    requires n < |ts| ==> HashToken(ts[n])
    ensures Clean(name) == Join(ts[..n], '_') + "." + ext
  {
    CleanOfPlainName(ts, ext, name);
    KeepBeforeHashAt(ts, n);
  }

  lemma Join2(a: string, b: string)
    ensures Join([a, b], '_') == a + "_" + b
  {
    assert [a, b][1..] == [b];
  }

  /** The tokens of the first unit-test file name: three kept, then a 32-digit hash. */
  lemma HashTailTokens(w: string, v: string, n: string, h: string, e: string)
    requires w == "kpopdemonhunters" && v == "v5" && n == "600" && e == "jpg"
    requires |h| == 32 && AllHex(h)
    ensures forall k :: 0 <= k < |[w, v, n]| ==>
      |[w, v, n][k]| > 0 && Plain([w, v, n][k]) && !HashToken([w, v, n][k])
    ensures |h| > 0 && Plain(h) && HashToken(h) && Plain(e)
  {
    forall i | 0 <= i < |h|
      ensures ('0' <= h[i] <= '9') || ('a' <= h[i] <= 'z') || ('A' <= h[i] <= 'Z')
    {
      assert IsHex(h[i]);
    }
    PlainIsFree(w);
    PlainIsFree(v);
    HexIsNoSep(n);
    WordIsNoHash(w, 0);
    WordIsNoHash(v, 0);
    UuidTokenIsHash(n);
    assert Plain(w) && Plain(v) && Plain(n);
  }

  /** Plain non-hash tokens followed by one plain hash-like token: the tail goes. */
  lemma CleanDropsHashTail(kept: seq<string>, h: string, ext: string)
    requires |kept| >= 1
    requires forall k :: 0 <= k < |kept| ==> |kept[k]| > 0 && Plain(kept[k]) && !HashToken(kept[k])
    requires |h| > 0 && Plain(h) && HashToken(h)
    requires Plain(ext)
    ensures Clean(Join(kept + [h], '_') + "." + ext) == Join(kept, '_') + "." + ext
  {
    var ts := kept + [h];
    CleanOfPlainNameAt(ts, ext, Join(ts, '_') + "." + ext, |kept|);
    assert ts[..|kept|] == kept;
  }

  /** The first unit-test file name, "kpopdemonhunters_v5_600_ba41dfa26a114c2f9c3e123456789abc.jpg"
      (and any other 32-hex-digit tail): the tail goes, while "v5" and "600" stay. */
  lemma ExampleHashTail(w: string, v: string, n: string, h: string, e: string)
    requires w == "kpopdemonhunters" && v == "v5" && n == "600" && e == "jpg"
    requires |h| == 32 && AllHex(h)
    ensures Clean(w + "_" + v + "_" + n + "_" + h + "." + e) == w + "_" + v + "_" + n + "." + e
  {
    var kept := [w, v, n];
    var name := Join(kept + [h], '_') + "." + e;
    assert Clean(name) == Join(kept, '_') + "." + e by {
      HashTailTokens(w, v, n, h, e);
      CleanDropsHashTail(kept, h, e);
    }
    assert name == w + "_" + v + "_" + n + "_" + h + "." + e by {
      assert kept + [h] == [w, v, n, h];
      Join4(w, v, n, h);
    }
    assert Join(kept, '_') == w + "_" + v + "_" + n by {
      Join3(w, v, n);
    }
  }

  /** The tokens of the second unit-test file name: two kept, then a six-digit hash. */
  lemma ShortHashTailTokens(a: string, b: string, c: string, e: string)
    requires a == "semi" && b == "ghibli" && c == "123abc" && e == "png"
    ensures Plain(a) && Plain(b) && Plain(c) && Plain(e)
    ensures |a| > 0 && |b| > 0 && |c| > 0
    ensures !HashToken(a) && !HashToken(b) && HashToken(c)
  {
    PlainIsFree(a);
    PlainIsFree(b);
    WordIsNoHash(a, 0);
    WordIsNoHash(b, 1);
    assert HashLike(c);
  }

  /** The second unit-test file name, "semi_ghibli_123abc.png": a six-digit hex tail goes. */
  lemma ExampleShortHashTail(a: string, b: string, c: string, e: string)
    requires a == "semi" && b == "ghibli" && c == "123abc" && e == "png"
    ensures Clean(a + "_" + b + "_" + c + "." + e) == a + "_" + b + "." + e
  {
    ShortHashTailTokens(a, b, c, e);
    var ts := [a, b, c];
    Join3(a, b, c);
    CleanOfPlainNameAt(ts, e, a + "_" + b + "_" + c + "." + e, 2);
    assert ts[..2] == [a, b];
    Join2(a, b);
  }

  /** A name that is one separator-free token: its only token is itself. */
  lemma TokensOfToken(t: string)
    requires NoSep(t)
    ensures Tokens(t) == [t]
  {
    FirstSepOfNoSep(t, []);
    assert t + [] == t;
  }

  /** One separator followed by a separator-free token splits into an empty token and it. */
  lemma TokensOfLeadingSep(c: char, t: string)
    requires IsSep(c) && NoSep(t) && |t| > 0
    ensures Tokens([c] + t) == ["", t]
  {
    TokensOfToken(t);
    TokensCons([], c, t);
    assert [] + [c] + t == [c] + t;
  }

  /** The empty token is kept. */
  lemma EmptyIsNoHash()
    ensures !HashToken("")
  {
    UuidTokenIsHash("");
  }

  /** The new stem when the first hash-like token of the stem is at position `n > 0`. */
  lemma NewRootAt(root: string, n: nat)
    requires 0 < n <= |Tokens(root)|
    requires forall i :: 0 <= i < n ==> !HashToken(Tokens(root)[i])
    requires n < |Tokens(root)| ==> HashToken(Tokens(root)[n])
    ensures NewRoot(root) == Join(Tokens(root)[..n], '_')
  {
    KeepBeforeHashAt(Tokens(root), n);
  }

  /** "_<stem>.<ext>" splits into the stem "_<stem>" and the extension ".<ext>". */
  lemma UnderscoreNameParts(h: string, ext: string)
    requires |h| > 0 && Plain(h) && Plain(ext)
    ensures Root("_" + h + "." + ext) == "_" + h && Ext("_" + h + "." + ext) == "." + ext
  {
    PlainIsFree(h);
    PlainIsFree(ext);
    assert Free("_" + h, '/') && ("_" + h)[0] != '.';
    SplitExtAtLastDot("_" + h, ext);
  }

  /** ".<ext>" has no extension: its only dot opens it. */
  lemma DotNameParts(ext: string)
    requires Free(ext, '/') && Free(ext, '.')
    ensures Root("." + ext) == "." + ext && Ext("." + ext) == ""
  {
    var q := "." + ext;
    assert forall j :: 0 < j < |q| ==> q[j] == ext[j - 1];
    assert Free(q, '/');
    assert q[0] == '.';
    assert RFind(q, '.') == 0;
    assert Basename(q) == q;
  }

  /** "_<hash>.<ext>": the leading '_' yields an empty first token, which is kept, so the
      stem shrinks to nothing and only the extension is left. */
  lemma LeadingSeparatorBeforeHash(h: string, ext: string)
    requires |h| > 0 && Plain(h) && HashToken(h) && Plain(ext)
    ensures Clean("_" + h + "." + ext) == "." + ext
  {
    UnderscoreNameParts(h, ext);
    PlainIsFree(h);
    TokensOfLeadingSep('_', h);
    assert "_" + h == ['_'] + h;
    EmptyIsNoHash();
    NewRootAt("_" + h, 1);
    assert ["", h][..1] == [""];
  }

  /** ".<ext>": a name whose only dot opens it has no extension; the dot splits off an
      empty first token, and the tokens are joined back with '_'. */
  lemma LeadingDotOnly(ext: string)
    requires |ext| > 0 && Plain(ext) && !HashToken(ext)
    ensures Clean("." + ext) == "_" + ext
  {
    PlainIsFree(ext);
    DotNameParts(ext);
    TokensOfLeadingSep('.', ext);
    assert "." + ext == ['.'] + ext;
    EmptyIsNoHash();
    NewRootAt("." + ext, 2);
    assert ["", ext][..2] == ["", ext];
    Join2("", ext);
    assert "" + "_" + ext == "_" + ext;
  }

  /** "_abcdef12.png" becomes ".png". */
  lemma ExampleLeadingUnderscore(h: string, ext: string)
    requires h == "abcdef12" && ext == "png"
    ensures Clean("_" + h + "." + ext) == "." + ext
  {
    assert Plain(h) && Plain(ext) && HashLike(h);
    LeadingSeparatorBeforeHash(h, ext);
  }

  /** ".png" becomes "_png". */
  lemma ExampleLeadingDot(ext: string)
    requires ext == "png"
    ensures Clean("." + ext) == "_" + ext
  {
    assert Plain(ext);
    PlainIsFree(ext);
    WordIsNoHash(ext, 0);
    LeadingDotOnly(ext);
  }

  /** The cleaner is not idempotent: "_abcdef12.png" becomes ".png", which becomes "_png". */
  lemma NotIdempotent(h: string, ext: string)
    requires h == "abcdef12" && ext == "png"
    ensures Clean(Clean("_" + h + "." + ext)) != Clean("_" + h + "." + ext)
  {
    ExampleLeadingUnderscore(h, ext);
    ExampleLeadingDot(ext);
    assert ("_" + ext)[0] != ("." + ext)[0];
  }
}
