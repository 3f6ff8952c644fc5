/**
 * How a directory rename rewrites the parent column of descendants in SQL. A row is selected when
 * its parent is the old path or matches a pattern made of the old path, a slash and `%`; the new
 * parent is the new path followed by what is left of the old parent after skipping as many
 * characters as the old path has bytes. Matching follows section 9.7.1 of the PostgreSQL
 * documentation, with backslash as the escape character.
 */
module Cascade {
  import opened Base
  import opened Paths

  /** `s LIKE pattern`. A pattern ending in the escape character matches nothing here (an SQL error). */
  predicate Like(s: string, pattern: string)
    decreases |pattern|, |s|
  {
    if pattern == "" then s == ""
    else if pattern[0] == '%' then
      Like(s, pattern[1..]) || (s != "" && Like(s[1..], pattern))
    else if pattern[0] == '_' then
      s != "" && Like(s[1..], pattern[1..])
    else if pattern[0] == '\\' then
      |pattern| >= 2 && s != "" && s[0] == pattern[1] && Like(s[1..], pattern[2..])
    else
      s != "" && s[0] == pattern[0] && Like(s[1..], pattern[1..])
  }

  predicate NoMeta(s: string) { '%' !in s && '_' !in s && '\\' !in s }

  predicate Ascii(s: string) { forall i :: 0 <= i < |s| ==> s[i] < 128 as char }

  /** The number of bytes of a string in UTF-8. */
  function Utf8Len(s: string): (n: nat)
    ensures n >= |s|
    ensures n == |s| <==> Ascii(s)
  {
    if s == "" then 0
    else
      assert s == [s[0]] + s[1..];
      var c := s[0] as int;
      (if c < 0x80 then 1 else if c < 0x800 then 2 else if c < 0x1_0000 then 3 else 4) + Utf8Len(s[1..])
  }

  /** The UTF-8 bytes of a character: RFC 3629, section 3. */
  function EncodeChar(c: char): seq<int> {
    var n := c as int;
    if n < 0x80 then [n]
    else if n < 0x800 then [0xC0 + n / 64, 0x80 + n % 64]
    else if n < 0x1_0000 then [0xE0 + n / 4096, 0x80 + n / 64 % 64, 0x80 + n % 64]
    else [0xF0 + n / 262144, 0x80 + n / 4096 % 64, 0x80 + n / 64 % 64, 0x80 + n % 64]
  }

  function Encode(s: string): seq<int> {
    if s == "" then [] else EncodeChar(s[0]) + Encode(s[1..])
  }

  /** The code point a byte sequence starts with, read off its lead byte. */
  function DecodeHead(b: seq<int>): Option<int> {
    if |b| >= 1 && 0 <= b[0] < 0x80 then Some(b[0])
    else if |b| >= 2 && 0xC0 <= b[0] < 0xE0 then Some((b[0] - 0xC0) * 64 + (b[1] - 0x80))
    else if |b| >= 3 && 0xE0 <= b[0] < 0xF0 then Some((b[0] - 0xE0) * 4096 + (b[1] - 0x80) * 64 + (b[2] - 0x80))
    else if |b| >= 4 && 0xF0 <= b[0] < 0xF8 then
      Some((b[0] - 0xF0) * 262144 + (b[1] - 0x80) * 4096 + (b[2] - 0x80) * 64 + (b[3] - 0x80))
    else None
  }

  /** Every byte is a byte, and a character is read back from its encoding. */
  lemma EncodeRoundTrip(c: char, rest: seq<int>)
    ensures DecodeHead(EncodeChar(c) + rest) == Some(c as int)
    ensures forall b :: b in EncodeChar(c) ==> 0 <= b < 256
  {
    var n := c as int;
    assert n < 0x11_0000;
    assert n == n / 64 * 64 + n % 64 && n / 64 == n / 4096 * 64 + n / 64 % 64;
    assert n / 4096 == n / 262144 * 64 + n / 4096 % 64;
  }

  /** The length that cuts the rows is the length of the encoding. */
  lemma {:induction false} Utf8LenIs(s: string)
    ensures Utf8Len(s) == |Encode(s)|
  {
    if s != "" {
      Utf8LenIs(s[1..]);
    }
  }

  /** SQL `substring(s FROM n)`, counting characters from 1. */
  function SubstringFrom(s: string, n: nat): string
    requires n >= 1
  {
    if n - 1 <= |s| then s[n - 1..] else ""
  }

  predicate CascadeMatches(src: string, parent: string) { parent == src || Like(parent, src + "/%") }

  /** The parent column of a row after the cascade of a rename of directory `src` to `dst`. */
  function CascadeParent(src: string, dst: string, parent: string): string {
    if CascadeMatches(src, parent) then dst + SubstringFrom(parent, Utf8Len(src) + 1) else parent
  }

  lemma {:induction false} PercentMatchesAll(s: string)
    ensures Like(s, "%")
  {
    if s != "" {
      PercentMatchesAll(s[1..]);
    }
  }

  /** Without metacharacters the pattern means "starts with dir + '/'". */
  lemma {:induction false} LikeIsPrefix(dir: string, s: string)
    requires NoMeta(dir)
    ensures Like(s, dir + "/%") <==> Under(dir, s)
  {
    if dir == "" {
      assert dir + "/%" == "/%" && "/%"[1..] == "%";
      if s != "" {
        PercentMatchesAll(s[1..]);
        assert Under(dir, s) <==> s[0] == '/';
      }
    } else {
      assert (dir + "/%")[1..] == dir[1..] + "/%";
      if s != "" {
        LikeIsPrefix(dir[1..], s[1..]);
        assert Under(dir, s) <==> s[0] == dir[0] && Under(dir[1..], s[1..]) by {
          assert dir + "/" == [dir[0]] + (dir[1..] + "/");
          assert s == [s[0]] + s[1..];
        }
      }
    }
  }

  predicate CascadeSafe(src: string) { NoMeta(src) && Ascii(src) }

  lemma CascadeIsRekey(src: string, dst: string, parent: string)
    requires CascadeSafe(src)
    ensures CascadeMatches(src, parent) <==> Moves(src, parent)
    ensures CascadeParent(src, dst, parent) == Rekey(src, dst, parent)
  {
    LikeIsPrefix(src, parent);
    if Under(src, parent) {
      assert SubstringFrom(parent, |src| + 1) == parent[|src|..];
    } else if parent == src {
      assert dst + SubstringFrom(parent, |src| + 1) == dst;
    }
  }

  // ---------------------------------------------------------------- one row

  /**
   * The cascade treats a row with this parent as the rename means to. A row that moves must be the
   * directory's own child, or be matched and cut at the right place; a row that stays must not be
   * matched, unless it already starts with the new path exactly where the cut falls.
   */
  predicate RowFits(src: string, dst: string, parent: string) {
    if Moves(src, parent) then parent == src || (Like(parent, src + "/%") && Ascii(src))
    else !Like(parent, src + "/%") || (dst <= parent && |dst| == Min(Utf8Len(src), |parent|))
  }

  lemma RowFitsExact(src: string, dst: string, parent: string)
    requires src != dst
    ensures RowFits(src, dst, parent) <==> CascadeParent(src, dst, parent) == Rekey(src, dst, parent)
  {
    if Moves(src, parent) {
      MovingRow(src, dst, parent);
    } else {
      CutAt(dst, parent, Utf8Len(src));
    }
  }

  lemma MovingRow(src: string, dst: string, parent: string)
    requires src != dst && Moves(src, parent)
    ensures CascadeParent(src, dst, parent) == Rekey(src, dst, parent)
            <==> parent == src || (Like(parent, src + "/%") && Ascii(src))
  {
    var tail, cut := parent[|src|..], SubstringFrom(parent, Utf8Len(src) + 1);
    assert parent == src + tail;
    TailCancels(src, dst, tail);
    assert Ascii(src) ==> cut == tail;
    assert !Ascii(src) && tail != "" ==> |dst + cut| < |dst + tail|;
    assert tail == "" ==> dst + cut == dst;
  }

  lemma CutAt(dst: string, parent: string, n: nat)
    ensures dst + SubstringFrom(parent, n + 1) == parent <==> dst <= parent && |dst| == Min(n, |parent|)
  {
    var m := Min(n, |parent|);
    assert SubstringFrom(parent, n + 1) == parent[m..] && parent == parent[..m] + parent[m..];
    TailCancels(dst, parent[..m], parent[m..]);
  }

  lemma TailCancels(a: string, b: string, t: string)
    ensures a + t == b + t ==> a == b
  {
    assert (a + t)[..|a|] == a && (b + t)[..|b|] == b;
  }

  lemma SafeFits(src: string, dst: string, parent: string)
    requires CascadeSafe(src)
    ensures RowFits(src, dst, parent)
  {
    LikeIsPrefix(src, parent);
  }

  // ---------------------------------------------------------------- what an unsafe path does

  /** The pattern has a `%` that is not escaped. */
  predicate Percent(pattern: string)
    decreases |pattern|
  {
    pattern != ""
    && (pattern[0] == '%'
        || if pattern[0] == '\\' && |pattern| >= 2 then Percent(pattern[2..]) else Percent(pattern[1..]))
  }

  lemma {:induction false} PercentPrefix(p: string, rest: string)
    requires !Percent(p + rest)
    ensures !Percent(p)
    decreases |p|
  {
    if p != "" {
      assert (p + rest)[1..] == p[1..] + rest;
      if p[0] == '\\' && |p| >= 2 {
        assert (p + rest)[2..] == p[2..] + rest;
        PercentPrefix(p[2..], rest);
      } else if p[0] != '\\' {
        PercentPrefix(p[1..], rest);
      } else {
        assert p[1..] == "";
      }
    }
  }

  /** A string the pattern matches has a slash if the pattern has. */
  lemma {:induction false} SlashMatched(s: string, p: string)
    requires Like(s, p) && '/' in p
    ensures '/' in s
    decreases |p|, |s|
  {
    assert p == [p[0]] + p[1..];
    if p[0] == '%' {
      if Like(s, p[1..]) {
        SlashMatched(s, p[1..]);
      } else {
        SlashMatched(s[1..], p);
      }
    } else if p[0] == '\\' {
      assert p == [p[0], p[1]] + p[2..];
      if p[1] != '/' {
        SlashMatched(s[1..], p[2..]);
      }
    } else if p[0] != '/' {
      SlashMatched(s[1..], p[1..]);
    }
  }

  /** What is left of a pattern after its first character or escape. */
  function AfterToken(p: string): string
    requires p != ""
  {
    if p[0] == '\\' && |p| >= 2 then p[2..] else p[1..]
  }

  lemma LikeCons(c: char, t: string, s: string, p: string)
    requires p != "" && p[0] != '%' && Like([c] + t, p) && Like(s, AfterToken(p))
    ensures Like([c] + s, p)
  {
    assert ([c] + s)[1..] == s;
  }

  lemma InsertCons(c: char, t: string, i: nat)
    requires i <= |t|
    ensures var s := [c] + t;
            s[i + 1..] == t[i..] && s[..i + 1] + "x" + s[i + 1..] == [c] + (t[..i] + "x" + t[i..])
  {
    var s := [c] + t;
    assert s[..i + 1] == [c] + t[..i] && s[i + 1..] == t[i..];
  }

  lemma InsertLater(c: char, t: string, i: nat, p: string)
    requires i < |t| && '/' in t[i..] && p != "" && p[0] != '%'
    requires Like([c] + t, p) && Like(t[..i] + "x" + t[i..], AfterToken(p))
    ensures var s := [c] + t; '/' in s[i + 1..] && Like(s[..i + 1] + "x" + s[i + 1..], p)
  {
    InsertCons(c, t, i);
    LikeCons(c, t, t[..i] + "x" + t[i..], p);
  }

  /** Where an unescaped `%` matched, one more character can be put in, before some slash of the string. */
  lemma {:induction false} Insertable(s: string, o: string) returns (i: nat)
    requires Percent(o) && Like(s, o + "/%")
    ensures i < |s| && '/' in s[i..] && Like(s[..i] + "x" + s[i..], o + "/%")
    decreases |o|, |s|
  {
    var p := o + "/%";
    assert p[1..] == o[1..] + "/%";
    if o[0] == '%' {
      i := 0;
      SlashMatched(s, p);
      assert s[..0] + "x" + s[0..] == "x" + s && ("x" + s)[1..] == s;
      assert s[0..] == s;
    } else {
      var rest := if o[0] == '\\' && |o| >= 2 then o[2..] else o[1..];
      assert rest + "/%" == AfterToken(p);
      var t := s[1..];
      i := Insertable(t, rest);
      assert [s[0]] + t == s;
      InsertLater(s[0], t, i, p);
      i := i + 1;
    }
  }

  /** Without `%`, a pattern whose first slash comes too early matches nothing of the string. */
  lemma {:induction false} EarlySlash(a: string, s: string, b: string, p: string)
    requires '/' !in a && '/' !in b && |b| < |a| && !Percent(b)
    ensures !Like(a + "/" + s, b + "/" + p)
    decreases |b|
  {
    var u, v := a + "/" + s, b + "/" + p;
    assert u[0] == a[0] && a[0] in a;
    assert u[1..] == a[1..] + "/" + s;
    if b != "" {
      assert v[1..] == b[1..] + "/" + p && b[0] in b;
      if b[0] == '\\' {
        if |b| >= 2 {
          assert v[2..] == b[2..] + "/" + p;
          EarlySlash(a[1..], s, b[2..], p);
        } else {
          assert v[1] == '/';
        }
      } else {
        EarlySlash(a[1..], s, b[1..], p);
      }
    }
  }

  /** An escape before any `%` loses the directory's own descendants. */
  lemma {:induction false} EscapeMisses(o: string)
    requires !Percent(o) && '\\' in o
    ensures !Like(o + "/x", o + "/%")
    decreases |o|
  {
    var d, p := o + "/x", o + "/%";
    assert d[1..] == o[1..] + "/x" && p[1..] == o[1..] + "/%";
    if o[0] != '\\' {
      assert o == [o[0]] + o[1..];
      EscapeMisses(o[1..]);
    } else {
      EscapeMissesHere(o);
    }
  }

  lemma EscapeMissesHere(o: string)
    requires o != "" && o[0] == '\\' && !Percent(o)
    ensures !Like(o + "/x", o + "/%")
  {
    var a := FirstPart(o);
    var s := FirstPartIs(o, "x");
    var p := FirstPartIs(o, "%");
    assert o + "/x" == o + "/" + "x" && o + "/%" == o + "/" + "%";
    PercentPrefix(a, o[|a|..]) by {
      assert a + o[|a|..] == o;
    }
    if |a| >= 2 {
      EscapeMissesPart(a, s, p);
    } else {
      assert (a + "/" + p)[1] == '/' && (a + "/" + s)[0] == '\\';
    }
  }

  lemma EscapeMissesPart(a: string, s: string, p: string)
    requires |a| >= 2 && a[0] == '\\' && '/' !in a && !Percent(a)
    ensures !Like(a + "/" + s, a + "/" + p)
  {
    assert (a + "/" + s)[1..] == a[1..] + "/" + s;
    assert (a + "/" + p)[2..] == a[2..] + "/" + p;
    EarlySlash(a[1..], s, a[2..], p);
  }

  /** A path up to its first slash. */
  function FirstPart(o: string): string {
    if o == "" || o[0] == '/' then "" else [o[0]] + FirstPart(o[1..])
  }

  lemma {:induction false} FirstPartIs(o: string, tail: string) returns (r: string)
    ensures o + "/" + tail == FirstPart(o) + "/" + r
    ensures '/' !in FirstPart(o) && FirstPart(o) <= o
  {
    if o == "" {
      r := tail;
    } else if o[0] == '/' {
      r := o[1..] + "/" + tail;
      assert o + "/" + tail == "" + "/" + r;
    } else {
      r := FirstPartIs(o[1..], tail);
      assert o + "/" + tail == [o[0]] + (o[1..] + "/" + tail);
      assert FirstPart(o) + "/" + r == [o[0]] + (FirstPart(o[1..]) + "/" + r);
    }
  }

  /** Without `%` and escapes, a string that differs only where the pattern has `_` is matched. */
  lemma {:induction false} Similar(v: string, o: string)
    requires !Percent(o) && '\\' !in o && |v| == |o| && forall j :: 0 <= j < |o| ==> v[j] == o[j] || o[j] == '_'
    ensures Like(v + "/x", o + "/%")
    decreases |o|
  {
    var s, p := v + "/x", o + "/%";
    if o == "" {
      assert s[1..] == "x" && p[1..] == "%";
      PercentMatchesAll("x");
    } else {
      assert s[1..] == v[1..] + "/x" && p[1..] == o[1..] + "/%";
      assert o == [o[0]] + o[1..];
      Similar(v[1..], o[1..]);
    }
  }

  lemma {:induction false} PercentIn(o: string)
    requires '%' in o && '\\' !in o
    ensures Percent(o)
  {
    assert o == [o[0]] + o[1..];
    if o[0] != '%' {
      PercentIn(o[1..]);
    }
  }

  /** With a metacharacter, the pattern misses a path under `o` or matches one that is not. */
  lemma MetaShows(o: string) returns (w: string)
    requires Neat(o) && !NoMeta(o)
    ensures Neat(w) && |w| > |o| && (Like(w, o + "/%") <==> !Under(o, w))
  {
    var d := o + "/x";
    NeatJoin(o, "x");
    assert d[..|o| + 1] == o + "/";
    if !Like(d, o + "/%") {
      w := d;
    } else if Percent(o) {
      var i := Insertable(d, o);
      w := d[..i] + "x" + d[i..];
      NeatInsert(d, i, 'x');
      assert forall j :: |o| < j < |d| ==> d[j] != '/';
      assert w[|o|] != '/';
    } else {
      if '\\' in o {
        EscapeMisses(o);
      }
      if '%' in o {
        PercentIn(o);
      }
      var i :| 0 <= i < |o| && o[i] == '_';
      var v := o[i := 'x'];
      NeatReplace(o, i, 'x');
      NeatJoin(v, "x");
      Similar(v, o);
      w := v + "/x";
      assert w[i] != o[i];
    }
  }

  /** The pattern selects exactly the strict descendants among all paths iff the path has no metacharacter. */
  lemma LikeExact(dir: string)
    requires NormalPath(dir) && dir != ""
    ensures (forall s :: NormalPath(s) ==> (Like(s, dir + "/%") <==> Under(dir, s))) <==> NoMeta(dir)
  {
    if NoMeta(dir) {
      forall s | NormalPath(s)
        ensures Like(s, dir + "/%") <==> Under(dir, s)
      {
        LikeIsPrefix(dir, s);
      }
    } else {
      NormalIsNeat(dir);
      var w := MetaShows(dir);
      NormalIsNeat(w);
    }
  }

  /** For every unsafe path some directory's rows are mistreated, whatever longer path the rename gives. */
  lemma UnsafeShows(o: string) returns (w: string)
    requires Neat(o) && !CascadeSafe(o)
    ensures Neat(w) && |w| > |o|
    ensures forall n :: |n| > |w| ==> !RowFits(o, n, w)
  {
    if !NoMeta(o) {
      w := MetaShows(o);
    } else {
      w := o + "/x";
      NeatJoin(o, "x");
      assert w[..|o| + 1] == o + "/";
    }
  }
}
