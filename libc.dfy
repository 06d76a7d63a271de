/** The C library and socket behaviour the two chat servers rely on, stated on byte
    sequences: the string a `char` buffer holds, `strncpy`, the truncation `snprintf`
    performs, `strtok`, and the record a `send` call leaves in the output log. */
module LibC {
  import opened Wrappers

  /** One byte of a C `char` buffer. */
  type Byte = c: char | c as int < 256

  const NUL: Byte := 0 as char

  /** A byte sequence that `%s`, `strcmp` and `strlen` see whole: it holds no NUL. */
  predicate IsCString(s: seq<Byte>)
  {
    NUL !in s
  }

  /** The C string at the start of the buffer `buf`: the bytes before its first NUL,
      or all of `buf` when it holds none. */
  function CStr(buf: seq<Byte>): (r: seq<Byte>)
    ensures r <= buf
    ensures IsCString(r)
    ensures |r| < |buf| ==> buf[|r|] == NUL
  {
    if buf == [] || buf[0] == NUL then [] else [buf[0]] + CStr(buf[1..])
  }

  /** The three properties of CStr determine it: a NUL-free prefix that stops at a NUL
      or at the end of the buffer is the C string of the buffer. */
  lemma CStrUnique(buf: seq<Byte>, s: seq<Byte>)
    requires s <= buf && IsCString(s)
    requires |s| < |buf| ==> buf[|s|] == NUL
    ensures CStr(buf) == s
  {
    var r := CStr(buf);
    assert r == buf[..|r|] && s == buf[..|s|];
  }

  /** A NUL written right after a C string ends it there, whatever follows. */
  lemma CStrTerminated(s: seq<Byte>, after: seq<Byte>)
    requires IsCString(s)
    ensures CStr(s + [NUL] + after) == s
    ensures CStr(s) == s
  {
    CStrUnique(s + [NUL] + after, s);
    CStrUnique(s, s);
  }

  /** `n` NUL bytes: what `strncpy` pads with, and a zero-initialised buffer. */
  function Zeros(n: nat): (z: seq<Byte>)
    ensures |z| == n && forall i :: 0 <= i < n ==> z[i] == NUL
  {
    seq(n, _ => NUL)
  }

  /** The `n` bytes `strncpy(dst, src, n)` stores in `dst`: the C string of `src`, cut
      to `n` bytes when longer, padded with NULs when shorter. Read back through a
      terminator placed after them, they give the first `n` bytes of that C string. */
  function StrNCpy(src: seq<Byte>, n: nat): (r: seq<Byte>)
    ensures |r| == n
    ensures var s := CStr(src);
            CStr(r + [NUL]) == if |s| <= n then s else s[..n]
  {
    var s := CStr(src);
    if |s| < n then
      var r := s + Zeros(n - |s|);
      assert r == s + [NUL] + Zeros(n - |s| - 1);
      CStrTerminated(s, Zeros(n - |s| - 1));
      assert r + [NUL] == s + [NUL] + (Zeros(n - |s| - 1) + [NUL]);
      CStrTerminated(s, Zeros(n - |s| - 1) + [NUL]);
      r
    else
      var r := s[..n];
      assert IsCString(r) by {
        forall i | 0 <= i < n ensures r[i] != NUL { assert r[i] == s[i]; }
      }
      CStrTerminated(r, []);
      assert r + [NUL] == r + [NUL] + [];
      r
  }

  /** The C string `snprintf(buf, size, ...)` leaves in `buf` when the complete formatted
      text is `text`: its longest prefix that fits in `size - 1` bytes. */
  function Snprintf(size: nat, text: seq<Byte>): (r: seq<Byte>)
    requires size > 0
    ensures r <= text
    ensures |r| == if |text| < size then |text| else size - 1
  {
    if |text| < size then text else text[..size - 1]
  }

  /** When the arguments are C strings, so is the output of `snprintf`: `strlen` of the
      buffer is the length of the formatted prefix, and `send` passes all of it. */
  lemma SnprintfIsCString(size: nat, text: seq<Byte>)
    requires size > 0 && IsCString(text)
    ensures IsCString(Snprintf(size, text))
    ensures CStr(Snprintf(size, text)) == Snprintf(size, text)
  {
    var r := Snprintf(size, text);
    forall i | 0 <= i < |r| ensures r[i] != NUL { assert r[i] == text[i]; }
    CStrTerminated(r, []);
  }

  /** One token found by `strtok`, and the text the next `strtok(NULL, ...)` call starts
      from (after the delimiter that ended the token, or empty when the string ended). */
  datatype Token = Token(text: seq<Byte>, rest: seq<Byte>)

  /** How many leading bytes of `s` are delimiters: the part `strtok` skips. */
  function SkipCount(s: seq<Byte>, delims: set<Byte>): (n: nat)
    ensures n <= |s|
    ensures forall i :: 0 <= i < n ==> s[i] in delims
    ensures n < |s| ==> s[n] !in delims
  {
    if s == [] || s[0] !in delims then 0 else 1 + SkipCount(s[1..], delims)
  }

  /** How many leading bytes of `s` are not delimiters: the length of the token. */
  function TokenCount(s: seq<Byte>, delims: set<Byte>): (n: nat)
    ensures n <= |s|
    ensures forall i :: 0 <= i < n ==> s[i] !in delims
    ensures n < |s| ==> s[n] in delims
  {
    if s == [] || s[0] in delims then 0 else 1 + TokenCount(s[1..], delims)
  }

  /** `strtok` on the C string `s`: skip leading delimiters; if nothing is left the
      result is NULL (None); otherwise the token runs to the next delimiter, which is
      overwritten by NUL, and the next call continues after it. */
  function StrTok(s: seq<Byte>, delims: set<Byte>): (r: Option<Token>)
    ensures r.None? <==> forall i :: 0 <= i < |s| ==> s[i] in delims
    ensures r.Some? ==> |r.value.text| > 0
    ensures r.Some? ==> forall i :: 0 <= i < |r.value.text| ==> r.value.text[i] !in delims
    ensures r.Some? ==> |r.value.text| + |r.value.rest| <= |s|
  {
    var k := SkipCount(s, delims);
    if k == |s| then None
    else
      var t := s[k..];
      var n := TokenCount(t, delims);
      assert t[0] == s[k];
      Some(Token(t[..n], if n < |t| then t[n + 1..] else []))
  }

  /** How `s` is made of what `strtok` found: skipped delimiters, the token, at most one
      delimiter, and the rest; the rest is empty when no delimiter ended the token. */
  lemma StrTokSplits(s: seq<Byte>, delims: set<Byte>) returns (lead: seq<Byte>, sep: seq<Byte>)
    requires StrTok(s, delims).Some?
    ensures s == lead + StrTok(s, delims).value.text + sep + StrTok(s, delims).value.rest
    ensures forall i :: 0 <= i < |lead| ==> lead[i] in delims
    ensures |sep| <= 1 && forall i :: 0 <= i < |sep| ==> sep[i] in delims
    ensures sep == [] ==> StrTok(s, delims).value.rest == []
  {
    var k := SkipCount(s, delims);
    var t := s[k..];
    var n := TokenCount(t, delims);
    lead := s[..k];
    if n < |t| {
      sep := [t[n]];
      SplitAround(s, k, n);
    } else {
      sep := [];
      SplitAfter(s, k, n);
    }
  }

  /** `s` cut before position `k`, after `n` more bytes, and once more after the byte there. */
  lemma SplitAround(s: seq<Byte>, k: nat, n: nat)
    requires k + n < |s|
    ensures s == s[..k] + s[k..][..n] + [s[k..][n]] + s[k..][n + 1..]
  {
    var t := s[k..];
    assert t == t[..n] + [t[n]] + t[n + 1..];
    assert s == s[..k] + t;
  }

  /** `s` cut before position `k`, where the `n` bytes after it run to the end. */
  lemma SplitAfter(s: seq<Byte>, k: nat, n: nat)
    requires k + n == |s|
    ensures s == s[..k] + s[k..][..n] + [] + []
  {
    assert s[k..][..n] == s[k..];
  }

  /** The converse: a token written after delimiters and followed by one delimiter is
      exactly what `strtok` returns, with the rest left for the next call. */
  lemma {:induction false} StrTokFinds(lead: seq<Byte>, text: seq<Byte>, d: Byte, rest: seq<Byte>, delims: set<Byte>)
    requires forall i :: 0 <= i < |lead| ==> lead[i] in delims
    requires |text| > 0 && forall i :: 0 <= i < |text| ==> text[i] !in delims
    requires d in delims
    ensures StrTok(lead + text + [d] + rest, delims) == Some(Token(text, rest))
  {
    var s := lead + text + [d] + rest;
    SkipCountOf(lead, text + [d] + rest, delims);
    assert s == lead + (text + [d] + rest);
    assert s[|lead|..] == text + [d] + rest;
    TokenCountOf(text, [d] + rest, delims);
    assert text + [d] + rest == text + ([d] + rest);
  }

  /** A token that ends the string: `strtok` returns it and leaves nothing for the next call. */
  lemma {:induction false} StrTokFindsLast(lead: seq<Byte>, text: seq<Byte>, delims: set<Byte>)
    requires forall i :: 0 <= i < |lead| ==> lead[i] in delims
    requires |text| > 0 && forall i :: 0 <= i < |text| ==> text[i] !in delims
    ensures StrTok(lead + text, delims) == Some(Token(text, []))
  {
    var s := lead + text;
    SkipCountOf(lead, text, delims);
    assert s[|lead|..] == text;
    TokenCountOf(text, [], delims);
    assert text + [] == text;
  }

  lemma {:induction false} SkipCountOf(lead: seq<Byte>, after: seq<Byte>, delims: set<Byte>)
    requires forall i :: 0 <= i < |lead| ==> lead[i] in delims
    requires after == [] || after[0] !in delims
    ensures SkipCount(lead + after, delims) == |lead|
  {
    if lead != [] {
      assert (lead + after)[1..] == lead[1..] + after;
      SkipCountOf(lead[1..], after, delims);
    } else {
      assert lead + after == after;
    }
  }

  lemma {:induction false} TokenCountOf(text: seq<Byte>, after: seq<Byte>, delims: set<Byte>)
    requires forall i :: 0 <= i < |text| ==> text[i] !in delims
    requires after == [] || after[0] in delims
    ensures TokenCount(text + after, delims) == |text|
  {
    if text != [] {
      assert (text + after)[1..] == text[1..] + after;
      TokenCountOf(text[1..], after, delims);
    } else {
      assert text + after == after;
    }
  }

  /** `strcpy(dst, src)`: the C string of `src` and its terminator written over the start
      of `dst`. None stands for undefined behaviour: `src` holds no terminator, or the
      string and its terminator do not fit in `dst`. */
  function StrCpy(dst: seq<Byte>, src: seq<Byte>): (r: Option<seq<Byte>>)
    ensures r.Some? <==> NUL in src && |CStr(src)| < |dst|
    ensures r.Some? ==> |r.value| == |dst| && CStr(r.value) == CStr(src)
    ensures r.Some? ==> r.value[|CStr(src)| + 1..] == dst[|CStr(src)| + 1..]
  {
    var s := CStr(src);
    if NUL in src && |s| < |dst| then
      CStrTerminated(s, dst[|s| + 1..]);
      Some(s + [NUL] + dst[|s| + 1..])
    else
      None
  }

  /** The logs one after another, in order. */
  function Concat<T>(logs: seq<seq<T>>): (r: seq<T>)
    ensures logs == [] ==> r == []
  {
    if logs == [] then [] else Concat(logs[..|logs| - 1]) + logs[|logs| - 1]
  }

  lemma {:induction false} ConcatAppend<T>(a: seq<seq<T>>, b: seq<seq<T>>)
    ensures Concat(a + b) == Concat(a) + Concat(b)
  {
    if b == [] {
      assert a + b == a;
    } else {
      var n := |b| - 1;
      assert (a + b)[..|a + b| - 1] == a + b[..n];
      assert (a + b)[|a + b| - 1] == b[n];
      ConcatAppend(a, b[..n]);
    }
  }

  /** One call of `send(socket, buf, strlen(buf), 0)`: the socket and the bytes sent. */
  datatype Send = Send(socket: int, data: seq<Byte>)
}
