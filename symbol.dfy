/**
 * The kernel symbol table of kernel/symbol.c: `readline` over a file,
 * a `strtok` with a static cursor, `strtoull` for hexadecimal addresses,
 * the parse loop of `load_symbols` and the lookup `find_symbol`.
 *
 * The file `kernel.sym` is its byte contents plus a read offset; opening
 * it (`namei`) is an argument that may be absent, and the inode locking
 * and log calls around it are left out.
 */
module Symbols {
  import opened Common

  const MAX_SYMBOLS: nat := 1024
  const MAX_NAME_LEN: nat := 64
  /** Size of the line buffer `load_symbols` passes to `readline`. */
  const LINE_BUF: nat := 128
  /** `uint64` arithmetic is modulo 2^64. */
  const U64: nat := 0x1_0000_0000_0000_0000

  // ---------------------------------------------------------------------------
  // readline
  // ---------------------------------------------------------------------------

  /** The characters `readline` stores and the bytes it consumes from the file. */
  datatype LineRead = LineRead(line: seq<char>, consumed: nat)

  /**
   * What `readline` reads at offset `off` with room for `room` characters:
   * it stops at end of data, after a newline (consumed, not stored) or when
   * the room is used up.
   */
  function ScanLine(data: seq<char>, off: nat, room: nat): LineRead
    decreases room
  {
    if room == 0 || off >= |data| then LineRead([], 0)
    else if data[off] == '\n' then LineRead([], 1)
    else
      var rest := ScanLine(data, off + 1, room - 1);
      LineRead([data[off]] + rest.line, rest.consumed + 1)
  }

  /** The bytes consumed are the characters stored plus at most the newline, within the data. */
  lemma {:induction false} ScanLineConsumed(data: seq<char>, off: nat, room: nat)
    ensures var r := ScanLine(data, off, room);
            && |r.line| <= room
            && (r.consumed == |r.line| || r.consumed == |r.line| + 1)
            && (r.consumed == 0 || off + r.consumed <= |data|)
    decreases room
  {
    if !(room == 0 || off >= |data| || data[off] == '\n') {
      ScanLineConsumed(data, off + 1, room - 1);
    }
  }

  /**
   * A line read holds at most `room` characters, none of them a newline,
   * copied from the data at `off`; the bytes consumed are those characters
   * plus the newline that ended the line, if any; a line without a newline
   * ended because the room ran out or the data did.
   */
  lemma {:induction false} ScanLineShape(data: seq<char>, off: nat, room: nat)
    ensures var r := ScanLine(data, off, room);
            && |r.line| <= room
            && (r.consumed == |r.line| || r.consumed == |r.line| + 1)
            && (r.consumed == 0 || off + r.consumed <= |data|)
            && (forall k :: 0 <= k < |r.line| ==> off + k < |data| && r.line[k] == data[off + k])
            && '\n' !in r.line
            && (r.consumed == |r.line| + 1 ==> data[off + |r.line|] == '\n')
            && (r.consumed == |r.line| ==> |r.line| == room || off + |r.line| >= |data|)
    decreases room
  {
    if !(room == 0 || off >= |data| || data[off] == '\n') {
      ScanLineShape(data, off + 1, room - 1);
      var r := ScanLine(data, off, room);
      var rest := ScanLine(data, off + 1, room - 1);
      assert forall k :: 1 <= k < |r.line| ==> r.line[k] == rest.line[k - 1];
    }
  }

  /** How many characters `readline(f, buf, max)` may store before the NUL. */
  function Room(max: int): nat
  {
    if max >= 1 then max - 1 else 0
  }

  lemma ScanLineStep(data: seq<char>, off: nat, room: nat)
    requires 0 < room && off < |data| && data[off] != '\n'
    ensures ScanLine(data, off, room).line == [data[off]] + ScanLine(data, off + 1, room - 1).line
    ensures ScanLine(data, off, room).consumed == ScanLine(data, off + 1, room - 1).consumed + 1
  {
  }

  /** The two ways `readline` stops: out of room or data with nothing consumed, or at a newline it consumes. */
  lemma ScanLineStop(data: seq<char>, off: nat, room: nat)
    ensures room == 0 || off >= |data| ==> ScanLine(data, off, room) == LineRead([], 0)
    ensures 0 < room && off < |data| && data[off] == '\n' ==> ScanLine(data, off, room) == LineRead([], 1)
  {
  }

  /** An open file: its contents and the read offset `f->off`. */
  class File {
    const data: seq<char>
    var off: nat

    constructor (data: seq<char>)
      ensures this.data == data && off == 0
    {
      this.data := data;
      off := 0;
    }
  }

  /**
   * `readline(f, buf, max)`: store the line at `f->off` in `buf`, terminate
   * it with a NUL and return its length; `f->off` advances past every byte
   * read, the newline included.
   */
  method ReadLine(f: File, buf: array<char>, max: int) returns (n: nat)
    requires 0 < buf.Length && max <= buf.Length
    modifies f, buf
    ensures var r := ScanLine(f.data, old(f.off), Room(max));
            && n == |r.line| && n < buf.Length
            && buf[..n] == r.line && buf[n] == '\0'
            && f.off == old(f.off) + r.consumed
    ensures forall k :: n < k < buf.Length ==> buf[k] == old(buf[k])
  {
    ghost var off0 := f.off;
    ghost var room := Room(max);
    ghost var whole := ScanLine(f.data, off0, room);
    ghost var acc: seq<char> := [];
    var i := 0;
    while i < max - 1
      invariant 0 <= i <= room && f.off == off0 + i && |acc| == i
      invariant buf[..i] == acc
      invariant whole.line == acc + ScanLine(f.data, f.off, room - i).line
      invariant whole.consumed == i + ScanLine(f.data, f.off, room - i).consumed
      invariant forall k :: i <= k < buf.Length ==> buf[k] == old(buf[k])
    {
      ScanLineStop(f.data, f.off, room - i);
      if f.off >= |f.data| {
        break;
      }
      var c := f.data[f.off];
      f.off := f.off + 1;
      if c == '\n' {
        break;
      }
      ScanLineStep(f.data, f.off - 1, room - i);
      Snoc(acc + [c], acc, c, ScanLine(f.data, f.off, room - i - 1).line);
      buf[i] := c;
      acc := acc + [c];
      i := i + 1;
    }
    ScanLineStop(f.data, f.off, room - i);
    assert whole.line == acc + [];
    buf[i] := '\0';
    n := i;
  }

  // ---------------------------------------------------------------------------
  // strtok
  // ---------------------------------------------------------------------------

  /**
   * The index of the NUL that ends the C string at `s + i`; the end of the
   * sequence stands for a NUL that is not there.
   */
  function FirstNul(s: seq<char>, i: nat): (n: nat)
    requires i <= |s|
    ensures i <= n <= |s|
    decreases |s| - i
  {
    if i == |s| || s[i] == '\0' then i else FirstNul(s, i + 1)
  }

  /** `FirstNul` finds the first NUL from `i`. */
  lemma {:induction false} FirstNulSpec(s: seq<char>, i: nat)
    requires i <= |s|
    ensures FirstNul(s, i) < |s| ==> s[FirstNul(s, i)] == '\0'
    ensures forall k :: i <= k < FirstNul(s, i) ==> s[k] != '\0'
    decreases |s| - i
  {
    if !(i == |s| || s[i] == '\0') {
      FirstNulSpec(s, i + 1);
    }
  }

  /** A NUL (or the end) with none before it, from `i`, is what `FirstNul` finds. */
  lemma {:induction false} FirstNulIs(s: seq<char>, i: nat, n: nat)
    requires i <= n <= |s| && (n < |s| ==> s[n] == '\0')
    requires forall k :: i <= k < n ==> s[k] != '\0'
    ensures FirstNul(s, i) == n
    decreases n - i
  {
    if i < n {
      FirstNulIs(s, i + 1, n);
    }
  }

  /** A NUL at `n` bounds the first one. */
  lemma {:induction false} FirstNulAtMost(s: seq<char>, i: nat, n: nat)
    requires i <= n < |s| && s[n] == '\0'
    ensures FirstNul(s, i) <= n
    decreases n - i
  {
    if i < n && s[i] != '\0' {
      FirstNulAtMost(s, i + 1, n);
    }
  }

  /** A NUL occurs in `s` at or after `i`: `s + i` is a C string. */
  predicate Terminated(s: seq<char>, i: nat)
  {
    i <= |s| && FirstNul(s, i) < |s|
  }

  /** The C string at `s + i`, without its NUL. */
  function CStrAt(s: seq<char>, i: nat): (r: seq<char>)
    requires i <= |s|
    ensures i + |r| <= |s| && r == s[i..i + |r|]
  {
    s[i..FirstNul(s, i)]
  }

  /** The first loop of `strtok`: step over delimiters, stopping at the NUL. */
  function SkipDelims(s: seq<char>, i: nat, delim: seq<char>): (j: nat)
    requires i <= |s|
    ensures i <= j <= |s|
    decreases |s| - i
  {
    if i == |s| || s[i] == '\0' || s[i] !in delim then i else SkipDelims(s, i + 1, delim)
  }

  /** `SkipDelims` stops at the first character that is the NUL or no delimiter. */
  lemma {:induction false} SkipDelimsSpec(s: seq<char>, i: nat, delim: seq<char>)
    requires i <= |s|
    ensures var j := SkipDelims(s, i, delim);
            && (j < |s| ==> s[j] == '\0' || s[j] !in delim)
            && (forall k :: i <= k < j ==> s[k] != '\0' && s[k] in delim)
            && FirstNul(s, j) == FirstNul(s, i)
    decreases |s| - i
  {
    if !(i == |s| || s[i] == '\0' || s[i] !in delim) {
      SkipDelimsSpec(s, i + 1, delim);
    }
  }

  /** The second loop of `strtok`: step over the token, stopping at a delimiter or the NUL. */
  function SkipToken(s: seq<char>, i: nat, delim: seq<char>): (j: nat)
    requires i <= |s|
    ensures i <= j <= |s|
    decreases |s| - i
  {
    if i == |s| || s[i] == '\0' || s[i] in delim then i else SkipToken(s, i + 1, delim)
  }

  /** `SkipToken` stops at the first character that is the NUL or a delimiter. */
  lemma {:induction false} SkipTokenSpec(s: seq<char>, i: nat, delim: seq<char>)
    requires i <= |s|
    ensures var j := SkipToken(s, i, delim);
            && (j < |s| ==> s[j] == '\0' || s[j] in delim)
            && (forall k :: i <= k < j ==> s[k] != '\0' && s[k] !in delim)
            && FirstNul(s, j) == FirstNul(s, i)
    decreases |s| - i
  {
    if !(i == |s| || s[i] == '\0' || s[i] in delim) {
      SkipTokenSpec(s, i + 1, delim);
    }
  }

  /** The token `strtok` returns (its start), the buffer it leaves and its new cursor. */
  datatype StrtokResult = StrtokResult(token: Option<nat>, buf: seq<char>, next: nat)

  /**
   * One call of `strtok` with the cursor at `s + i`: skip delimiters; at
   * the NUL return no token; otherwise the token runs to the next delimiter,
   * which is overwritten with a NUL, and the cursor moves past it.
   */
  function StrtokStep(s: seq<char>, i: nat, delim: seq<char>): (r: StrtokResult)
    requires i <= |s|
    ensures |r.buf| == |s| && i <= r.next <= |s|
    ensures r.token.Some? ==> i <= r.token.value < r.next
  {
    var j := SkipDelims(s, i, delim);
    if j == |s| || s[j] == '\0' then StrtokResult(None, s, j)
    else
      var e := SkipToken(s, j, delim);
      if e < |s| && s[e] != '\0' then StrtokResult(Some(j), s[e := '\0'], e + 1)
      else StrtokResult(Some(j), s, e)
  }

  /** `strtok` leaves its cursor on a C string. */
  lemma StrtokTerminated(s: seq<char>, i: nat, delim: seq<char>)
    requires Terminated(s, i)
    ensures Terminated(StrtokStep(s, i, delim).buf, StrtokStep(s, i, delim).next)
  {
    var r := StrtokStep(s, i, delim);
    var n := FirstNul(s, i);
    FirstNulSpec(s, i);
    SkipDelimsSpec(s, i, delim);
    var j := SkipDelims(s, i, delim);
    if !(j == |s| || s[j] == '\0') {
      SkipTokenSpec(s, j, delim);
      var e := SkipToken(s, j, delim);
      if e < |s| && s[e] != '\0' {
        FirstNulSpec(r.buf, r.next);
        assert r.buf[n] == '\0';
      }
    }
  }

  /**
   * What a `strtok` call returns: nothing exactly when only delimiters
   * remain before the NUL, and then the buffer is unchanged and the cursor
   * rests on the NUL; otherwise a non-empty token that holds neither a
   * delimiter nor a NUL, is the text of the input after the skipped
   * delimiters and is maximal: it stops at a delimiter, which becomes a NUL
   * and the cursor resumes just past it, or at the string's own end, where
   * the buffer is unchanged and the cursor stays.
   */
  lemma StrtokToken(s: seq<char>, i: nat, delim: seq<char>)
    requires i <= |s| && '\0' !in delim
    ensures var r := StrtokStep(s, i, delim);
            r.token.None? <==> forall k :: i <= k < FirstNul(s, i) ==> s[k] in delim
    ensures var r := StrtokStep(s, i, delim);
            r.token.None? ==> r.buf == s && r.next == FirstNul(s, i)
    ensures var r := StrtokStep(s, i, delim);
            r.token.Some? ==>
              var j := r.token.value;
              var t := CStrAt(r.buf, j);
              && t != [] && t == s[j..j + |t|] && j + |t| <= r.next
              && (forall k :: 0 <= k < |t| ==> t[k] !in delim && t[k] != '\0')
              && (forall k :: i <= k < j ==> s[k] in delim)
    ensures var r := StrtokStep(s, i, delim);
            r.token.Some? ==>
              var e := r.token.value + |CStrAt(r.buf, r.token.value)|;
              && (e == |s| || s[e] == '\0' || s[e] in delim)
              && (e < |s| && s[e] != '\0' ==> r.buf == s[e := '\0'] && r.next == e + 1)
              && (e == |s| || s[e] == '\0' ==> r.buf == s && r.next == e)
  {
    var r := StrtokStep(s, i, delim);
    var j := SkipDelims(s, i, delim);
    var n := FirstNul(s, i);
    SkipDelimsSpec(s, i, delim);
    FirstNulSpec(s, i);
    if j == |s| || s[j] == '\0' {
      FirstNulSpec(s, j);
      FirstNulIs(s, i, j);
    } else {
      var e := SkipToken(s, j, delim);
      SkipTokenSpec(s, j, delim);
      FirstNulSpec(s, j);
      assert e <= n;
      FirstNulIs(r.buf, j, e);
      assert j < n && s[j] !in delim;
    }
  }

  /** A later `strtok` call leaves a C string that ends before its cursor as it was. */
  lemma CStrStable(s: seq<char>, i: nat, j: nat, delim: seq<char>)
    requires j < i <= |s| && FirstNul(s, j) <= i
    ensures CStrAt(StrtokStep(s, i, delim).buf, j) == CStrAt(s, j)
  {
    var r := StrtokStep(s, i, delim);
    var f := FirstNul(s, j);
    FirstNulSpec(s, j);
    SkipDelimsSpec(s, i, delim);
    var d := SkipDelims(s, i, delim);
    if !(d == |s| || s[d] == '\0') {
      SkipTokenSpec(s, d, delim);
    }
    assert forall k :: 0 <= k < i ==> r.buf[k] == s[k];
    if f < i {
      FirstNulIs(r.buf, j, f);
      assert r.buf[j..f] == s[j..f];
    } else {
      assert f == i;
    }
  }

  /**
   * The strings that successive `strtok` calls return from the cursor
   * `s + i` until one returns NULL, each read from the buffer as that call
   * left it.
   */
  function Tokens(s: seq<char>, i: nat, delim: seq<char>): seq<seq<char>>
    requires i <= |s|
    decreases |s| - i
  {
    var r := StrtokStep(s, i, delim);
    if r.token.None? then []
    else [CStrAt(r.buf, r.token.value)] + Tokens(r.buf, r.next, delim)
  }

  /** The first two tokens are those of the first two `strtok` calls, when both return one. */
  lemma TokensPair(s: seq<char>, delim: seq<char>)
    ensures var r1 := StrtokStep(s, 0, delim);
            var r2 := StrtokStep(r1.buf, r1.next, delim);
            var toks := Tokens(s, 0, delim);
            && (|toks| >= 2 <==> r1.token.Some? && r2.token.Some?)
            && (|toks| >= 2 ==> toks[0] == CStrAt(r1.buf, r1.token.value)
                                && toks[1] == CStrAt(r2.buf, r2.token.value))
  {
    var r1 := StrtokStep(s, 0, delim);
    if r1.token.Some? {
      var r2 := StrtokStep(r1.buf, r1.next, delim);
      assert Tokens(s, 0, delim) == [CStrAt(r1.buf, r1.token.value)] + Tokens(r1.buf, r1.next, delim);
      if r2.token.Some? {
        assert Tokens(r1.buf, r1.next, delim) == [CStrAt(r2.buf, r2.token.value)] + Tokens(r2.buf, r2.next, delim);
      }
    }
  }

  /** A token as `strtok` returns it: non-empty, holding neither a delimiter nor a NUL. */
  predicate WellFormedToken(t: seq<char>, delim: seq<char>)
  {
    t != [] && forall k :: 0 <= k < |t| ==> t[k] !in delim && t[k] != '\0'
  }

  /** Every token of `toks` is well-formed. */
  predicate AllWellFormed(toks: seq<seq<char>>, delim: seq<char>)
  {
    forall m :: 0 <= m < |toks| ==> WellFormedToken(toks[m], delim)
  }

  /** Every token is non-empty and holds neither a delimiter nor a NUL. */
  lemma {:induction false} TokensShape(s: seq<char>, i: nat, delim: seq<char>)
    requires i <= |s| && '\0' !in delim
    ensures AllWellFormed(Tokens(s, i, delim), delim)
    decreases |s| - i
  {
    var r := StrtokStep(s, i, delim);
    if r.token.Some? {
      StrtokToken(s, i, delim);
      var t0 := CStrAt(r.buf, r.token.value);
      assert WellFormedToken(t0, delim);
      TokensShape(r.buf, r.next, delim);
      var rest := Tokens(r.buf, r.next, delim);
      assert AllWellFormed(rest, delim);
      assert Tokens(s, i, delim) == [t0] + rest;
    }
  }

  /**
   * Two buffers that agree up to and including a NUL at index `n`: `strtok`
   * never looks past that NUL.
   */
  predicate Agree(s: seq<char>, t: seq<char>, n: nat)
  {
    n < |s| && n < |t| && s[..n + 1] == t[..n + 1] && s[n] == '\0'
  }

  lemma {:induction false} SkipDelimsAgree(s: seq<char>, t: seq<char>, i: nat, n: nat, delim: seq<char>)
    requires Agree(s, t, n) && i <= n
    ensures SkipDelims(s, i, delim) == SkipDelims(t, i, delim) <= n
    decreases n - i
  {
    assert s[i] == s[..n + 1][i] == t[i];
    if !(s[i] == '\0' || s[i] !in delim) {
      SkipDelimsAgree(s, t, i + 1, n, delim);
    }
  }

  lemma {:induction false} SkipTokenAgree(s: seq<char>, t: seq<char>, i: nat, n: nat, delim: seq<char>)
    requires Agree(s, t, n) && i <= n
    ensures SkipToken(s, i, delim) == SkipToken(t, i, delim) <= n
    decreases n - i
  {
    assert s[i] == s[..n + 1][i] == t[i];
    if !(s[i] == '\0' || s[i] in delim) {
      SkipTokenAgree(s, t, i + 1, n, delim);
    }
  }

  /** `strtok` gives the same answer on buffers that agree up to a NUL, and keeps them agreeing. */
  lemma StrtokAgree(s: seq<char>, t: seq<char>, i: nat, n: nat, delim: seq<char>)
    requires Agree(s, t, n) && i <= n
    ensures var rs := StrtokStep(s, i, delim);
            var rt := StrtokStep(t, i, delim);
            rs.token == rt.token && rs.next == rt.next && rs.next <= n && Agree(rs.buf, rt.buf, n)
  {
    SkipDelimsAgree(s, t, i, n, delim);
    var j := SkipDelims(s, i, delim);
    assert s[j] == s[..n + 1][j] == t[j];
    if s[j] != '\0' {
      SkipTokenAgree(s, t, j, n, delim);
      var e := SkipToken(s, j, delim);
      assert s[e] == s[..n + 1][e] == t[e];
      if s[e] != '\0' {
        assert s[e := '\0'][..n + 1] == s[..n + 1][e := '\0'];
        assert t[e := '\0'][..n + 1] == t[..n + 1][e := '\0'];
      }
    }
  }

  /** Two agreeing buffers have their first NUL from `i` at the same index. */
  lemma {:induction false} FirstNulAgree(s: seq<char>, t: seq<char>, i: nat, n: nat)
    requires Agree(s, t, n) && i <= n
    ensures FirstNul(s, i) == FirstNul(t, i) <= n
    decreases n - i
  {
    assert s[i] == s[..n + 1][i] == t[i];
    if s[i] != '\0' {
      FirstNulAgree(s, t, i + 1, n);
    }
  }

  /** The C strings two agreeing buffers hold below the NUL are equal. */
  lemma CStrAgree(s: seq<char>, t: seq<char>, i: nat, n: nat)
    requires Agree(s, t, n) && i <= n
    ensures CStrAt(s, i) == CStrAt(t, i)
  {
    FirstNulAgree(s, t, i, n);
    var f := FirstNul(s, i);
    assert s[i..f] == s[..n + 1][i..f];
    assert t[i..f] == t[..n + 1][i..f];
  }

  /** The first loop of `strtok` over a buffer. */
  method ScanDelims(b: array<char>, i: nat, delim: seq<char>) returns (j: nat)
    requires Terminated(b[..], i)
    ensures j == SkipDelims(b[..], i, delim) && j < b.Length
  {
    j := i;
    while b[j] != '\0' && b[j] in delim
      invariant i <= j <= b.Length && FirstNul(b[..], j) == FirstNul(b[..], i)
      invariant SkipDelims(b[..], j, delim) == SkipDelims(b[..], i, delim)
      decreases b.Length - j
    {
      j := j + 1;
    }
  }

  /** The second loop of `strtok` over a buffer. */
  method ScanToken(b: array<char>, i: nat, delim: seq<char>) returns (j: nat)
    requires Terminated(b[..], i)
    ensures j == SkipToken(b[..], i, delim) && j < b.Length
  {
    j := i;
    while b[j] != '\0' && b[j] !in delim
      invariant i <= j <= b.Length && FirstNul(b[..], j) == FirstNul(b[..], i)
      invariant SkipToken(b[..], j, delim) == SkipToken(b[..], i, delim)
      decreases b.Length - j
    {
      j := j + 1;
    }
  }

  /**
   * The state `strtok` keeps between calls: the static `next`, here the
   * buffer it points into (`null` before the first call) and an index.
   */
  class Tokenizer {
    var cur: array?<char>
    var next: nat

    constructor ()
      ensures cur == null && next == 0
    {
      cur := null;
      next := 0;
    }

    /** The cursor points into a C string. */
    ghost predicate Valid()
      reads this, cur
    {
      cur != null ==> Terminated(cur[..], next)
    }

    /**
     * `strtok(str, delim)`: a non-null `str` restarts the cursor at its
     * start; with no buffer yet the result is NULL; otherwise one
     * `StrtokStep` from the cursor.
     */
    method Strtok(str: array?<char>, delim: seq<char>) returns (tok: Option<nat>)
      requires '\0' !in delim
      requires str != null ==> Terminated(str[..], 0)
      requires str == null ==> Valid()
      modifies this, if str != null then {str} else {cur}
      ensures Valid()
      ensures cur == (if str != null then str else old(cur))
      ensures cur == null ==> tok.None? && next == old(next)
      ensures cur != null ==>
                var r := StrtokStep(if str != null then old(str[..]) else old(cur[..]),
                                    if str != null then 0 else old(next), delim);
                tok == r.token && cur[..] == r.buf && next == r.next
    {
      if str != null {
        cur := str;
        next := 0;
      }
      if cur == null {
        return None;
      }
      var b := cur;
      ghost var s := b[..];
      ghost var i0 := next;
      StrtokTerminated(s, i0, delim);
      next := ScanDelims(b, next, delim);
      if b[next] == '\0' {
        return None;
      }
      var start := next;
      SkipDelimsSpec(s, i0, delim);
      next := ScanToken(b, next, delim);
      if b[next] != '\0' {
        b[next] := '\0';
        assert b[..] == s[next := '\0'];
        next := next + 1;
      }
      return Some(start);
    }
  }

  // ---------------------------------------------------------------------------
  // strtoull
  // ---------------------------------------------------------------------------

  predicate IsHex(c: char)
  {
    '0' <= c <= '9' || 'a' <= c <= 'f' || 'A' <= c <= 'F'
  }

  function HexValue(c: char): (d: nat)
    requires IsHex(c)
    ensures d < 16
  {
    if '0' <= c <= '9' then c as int - '0' as int
    else if 'a' <= c <= 'f' then c as int - 'a' as int + 10
    else c as int - 'A' as int + 10
  }

  /** The leading hexadecimal digits of `s`, the only characters `strtoull` consumes. */
  function HexPrefix(s: seq<char>): (p: seq<char>)
    ensures |p| <= |s| && p == s[..|p|]
    ensures forall k :: 0 <= k < |p| ==> IsHex(p[k])
    ensures |p| == |s| || !IsHex(s[|p|])
  {
    if s == [] || !IsHex(s[0]) then []
    else [s[0]] + HexPrefix(s[1..])
  }

  /** `val = val * base + digit` over `digits`, in `uint64` arithmetic. */
  function Horner(digits: seq<char>, base: int): (v: nat)
    requires forall k :: 0 <= k < |digits| ==> IsHex(digits[k])
    ensures v < U64
  {
    if digits == [] then 0
    else (Horner(digits[..|digits| - 1], base) * base + HexValue(digits[|digits| - 1])) % U64
  }

  /**
   * The loop of `strtoull` from accumulator `acc`: `val = val * base + digit`
   * in `uint64` arithmetic while the next character is a hexadecimal digit.
   */
  function ParseHex(s: seq<char>, base: int, acc: nat): (v: nat)
    requires acc < U64
    ensures v < U64
  {
    if s == [] || !IsHex(s[0]) then acc
    else ParseHex(s[1..], base, (acc * base + HexValue(s[0])) % U64)
  }

  /**
   * `strtoull(s, base)`: fold the leading hexadecimal digits into a
   * `uint64`.  No prefix, sign or blank is accepted and a digit is not
   * checked against `base`.
   */
  method StrToUll(s: seq<char>, base: int) returns (val: nat)
    ensures val == ParseHex(s, base, 0)
  {
    val := 0;
    var i := 0;
    while i < |s| && s[i] != '\0'
      invariant 0 <= i <= |s| && val < U64
      invariant ParseHex(s[i..], base, val) == ParseHex(s, base, 0)
    {
      var c := s[i];
      var digit := 0;
      if '0' <= c <= '9' {
        digit := c as int - '0' as int;
      } else if 'a' <= c <= 'f' {
        digit := c as int - 'a' as int + 10;
      } else if 'A' <= c <= 'F' {
        digit := c as int - 'A' as int + 10;
      } else {
        break;
      }
      assert s[i..][1..] == s[i + 1..];
      i := i + 1;
      val := (val * base + digit) % U64;
    }
  }

  /**
   * The loop computes the Horner value of the leading hexadecimal digits,
   * reduced modulo 2^64.
   */
  lemma ParseHexIsHorner(s: seq<char>, base: int)
    ensures ParseHex(s, base, 0) == Horner(HexPrefix(s), base)
  {
    ParseHexHorner([], s, base);
    assert [] + HexPrefix(s) == HexPrefix(s);
  }

  lemma {:induction false} ParseHexHorner(p: seq<char>, s: seq<char>, base: int)
    requires forall k :: 0 <= k < |p| ==> IsHex(p[k])
    ensures forall k :: 0 <= k < |p + HexPrefix(s)| ==> IsHex((p + HexPrefix(s))[k])
    ensures ParseHex(s, base, Horner(p, base)) == Horner(p + HexPrefix(s), base)
    decreases |s|
  {
    if s == [] || !IsHex(s[0]) {
      assert p + HexPrefix(s) == p;
    } else {
      var q := p + [s[0]];
      assert q[..|q| - 1] == p;
      ParseHexHorner(q, s[1..], base);
      assert q + HexPrefix(s[1..]) == p + HexPrefix(s);
    }
  }

  /** Parsing stops at the first character that is not a hexadecimal digit. */
  lemma {:induction false} ParseHexStops(p: seq<char>, c: char, rest: seq<char>, base: int, acc: nat)
    requires acc < U64
    requires forall k :: 0 <= k < |p| ==> IsHex(p[k])
    requires !IsHex(c)
    ensures ParseHex(p + [c] + rest, base, acc) == ParseHex(p, base, acc)
  {
    if p != [] {
      assert (p + [c] + rest)[1..] == p[1..] + [c] + rest;
      ParseHexStops(p[1..], c, rest, base, (acc * base + HexValue(p[0])) % U64);
    }
  }

  /** A `0x` prefix is not understood: "0x1f" reads as 0. */
  lemma NoHexPrefix()
    ensures ParseHex("0x1f", 16, 0) == 0
  {
    ParseHexStops("0", 'x', "1f", 16, 0);
  }

  /** The base is not checked: "9" in base 8 reads as 9. */
  lemma BaseNotChecked()
    ensures ParseHex("9", 8, 0) == 9
  {
    assert "9"[1..] == [];
  }

  /** The value wraps modulo 2^64: "100" in base 2^32 reads as 0. */
  lemma ValueWraps()
    ensures ParseHex("100", 0x1_0000_0000, 0) == 0
  {
    assert "100"[1..] == "00" && "00"[1..] == "0" && "0"[1..] == [];
  }

  // ---------------------------------------------------------------------------
  // load_symbols and find_symbol
  // ---------------------------------------------------------------------------

  /** An entry of `symbols[]`: an address and the name it stands for. */
  datatype Symbol = Symbol(addr: nat, name: seq<char>)

  /** The first `n` characters of `s`, as `strncpy` into the name field keeps. */
  function Truncate(s: seq<char>, n: nat): (r: seq<char>)
    ensures |r| <= n && |r| <= |s|
    ensures r == s[..|r|]
    ensures |s| <= n ==> r == s
    ensures |r| == if |s| <= n then |s| else n
  {
    if |s| <= n then s else s[..n]
  }

  /**
   * The entry `load_symbols` makes of the tokens of one line: the first is
   * a hexadecimal address and the second a name, cut to MAX_NAME_LEN - 1
   * characters; a line with fewer than two tokens gives none.
   */
  function Entry(toks: seq<seq<char>>): Option<Symbol>
  {
    if |toks| < 2 then None
    else Some(Symbol(ParseHex(toks[0], 16, 0), Truncate(toks[1], MAX_NAME_LEN - 1)))
  }

  /** The entry made of a line `readline` stored, NUL-terminated, in the buffer. */
  function ParseLine(line: seq<char>): Option<Symbol>
  {
    Entry(Tokens(line + ['\0'], 0, " "))
  }

  /** A name `load_symbols` can store: non-empty, no blank or NUL, room for its NUL in the field. */
  ghost predicate SymbolName(name: seq<char>)
  {
    0 < |name| < MAX_NAME_LEN && forall k :: 0 <= k < |name| ==> name[k] != ' ' && name[k] != '\0'
  }

  /**
   * An entry is made exactly when there are two tokens; its address is the
   * hexadecimal value of the leading digits of the first, its name the
   * first MAX_NAME_LEN - 1 characters of the second (all of a shorter one).
   * Made of well-formed tokens, the name is one `load_symbols` can store.
   */
  lemma EntryName(toks: seq<seq<char>>)
    requires AllWellFormed(toks, " ")
    ensures var r := Entry(toks);
            r.Some? <==> |toks| >= 2
    ensures var r := Entry(toks);
            r.Some? ==>
              && r.value.addr == Horner(HexPrefix(toks[0]), 16)
              && |r.value.name| == (if |toks[1]| < MAX_NAME_LEN then |toks[1]| else MAX_NAME_LEN - 1)
              && r.value.name == toks[1][..|r.value.name|]
    ensures var r := Entry(toks);
            r.Some? ==> SymbolName(r.value.name) && r.value.addr < U64
  {
    if |toks| >= 2 {
      ParseHexIsHorner(toks[0], 16);
      var name := Truncate(toks[1], MAX_NAME_LEN - 1);
      assert WellFormedToken(toks[1], " ");
      forall k | 0 <= k < |name| ensures name[k] != ' ' && name[k] != '\0' {
        assert name[k] == toks[1][k];
      }
    }
  }

  /**
   * A line gives an entry exactly when it has two blank-separated tokens;
   * the name is the first MAX_NAME_LEN - 1 characters of the second token,
   * all of a shorter one, and the address the hexadecimal value of the
   * leading digits of the first.
   */
  lemma {:induction false} ParseLineFields(line: seq<char>)
    ensures var toks := Tokens(line + ['\0'], 0, " ");
            var r := ParseLine(line);
            && (r.Some? <==> |toks| >= 2)
            && (r.Some? ==> && r.value.addr == Horner(HexPrefix(toks[0]), 16)
                            && |r.value.name| == (if |toks[1]| < MAX_NAME_LEN then |toks[1]| else MAX_NAME_LEN - 1)
                            && r.value.name == toks[1][..|r.value.name|])
  {
    TokensShape(line + ['\0'], 0, " ");
    EntryName(Tokens(line + ['\0'], 0, " "));
  }

  /** A parsed name is non-empty, fits the name field with its NUL, and holds no blank. */
  lemma {:induction false} ParseLineName(line: seq<char>)
    ensures var r := ParseLine(line);
            r.Some? ==> SymbolName(r.value.name) && r.value.addr < U64
  {
    TokensShape(line + ['\0'], 0, " ");
    EntryName(Tokens(line + ['\0'], 0, " "));
  }

  /**
   * The entries `load_symbols` makes from `data`, reading lines from `off`
   * with `i` entries already stored: it stops at the table's capacity, at
   * end of data or at an empty line, and skips lines without two tokens.
   */
  function LoadFrom(data: seq<char>, off: nat, i: nat): seq<Symbol>
    decreases |data| - off
  {
    if i >= MAX_SYMBOLS then []
    else
      var r := ScanLine(data, off, Room(LINE_BUF));
      if |r.line| == 0 then []
      else
        ScanLineConsumed(data, off, Room(LINE_BUF));
        var entry := ParseLine(r.line);
        if entry.Some? then [entry.value] + LoadFrom(data, off + r.consumed, i + 1)
        else LoadFrom(data, off + r.consumed, i)
  }

  /**
   * `load_symbols` stores at most MAX_SYMBOLS entries, each with a
   * non-empty name without blanks that fits the name field with its NUL.
   */
  lemma {:induction false} LoadFromBounds(data: seq<char>, off: nat, i: nat)
    ensures var syms := LoadFrom(data, off, i);
            && (i + |syms| <= MAX_SYMBOLS || syms == [])
            && forall k :: 0 <= k < |syms| ==> SymbolName(syms[k].name)
    decreases |data| - off
  {
    hide ParseLine;
    if i < MAX_SYMBOLS {
      var r := ScanLine(data, off, Room(LINE_BUF));
      if |r.line| != 0 {
        ScanLineConsumed(data, off, Room(LINE_BUF));
        ParseLineName(r.line);
        if ParseLine(r.line).Some? {
          LoadFromBounds(data, off + r.consumed, i + 1);
        } else {
          LoadFromBounds(data, off + r.consumed, i);
        }
      }
    }
  }

  /** One line of `LoadFrom`, below the table's capacity: `line` is what `readline` read and `off'` the offset after it. */
  lemma LoadFromStep(data: seq<char>, off: nat, i: nat, line: seq<char>, off': nat)
    requires i < MAX_SYMBOLS && off <= |data|
    requires line == ScanLine(data, off, Room(LINE_BUF)).line
    requires off' == off + ScanLine(data, off, Room(LINE_BUF)).consumed
    ensures off' <= |data| && (|line| > 0 ==> off' > off)
    ensures |line| == 0 ==> LoadFrom(data, off, i) == []
    ensures |line| > 0 && ParseLine(line).Some? ==>
              LoadFrom(data, off, i) == [ParseLine(line).value] + LoadFrom(data, off', i + 1)
    ensures |line| > 0 && ParseLine(line).None? ==>
              LoadFrom(data, off, i) == LoadFrom(data, off', i)
  {
    hide ParseLine;
    ScanLineConsumed(data, off, Room(LINE_BUF));
    if |line| > 0 {
      var entry := ParseLine(line);
      if entry.Some? {
        assert LoadFrom(data, off, i) == [entry.value] + LoadFrom(data, off', i + 1);
      } else {
        assert LoadFrom(data, off, i) == LoadFrom(data, off', i);
      }
    }
  }

  lemma Snoc<T>(prefix: seq<T>, a: seq<T>, x: T, rest: seq<T>)
    requires prefix == a + [x]
    ensures prefix + rest == a + ([x] + rest)
  {
  }

  /** The first of `syms` with address `addr`. */
  function FirstAddr(syms: seq<Symbol>, addr: nat): (k: Option<nat>)
    ensures k.None? <==> forall j :: 0 <= j < |syms| ==> syms[j].addr != addr
    ensures k.Some? ==> k.value < |syms| && syms[k.value].addr == addr
                        && forall j :: 0 <= j < k.value ==> syms[j].addr != addr
  {
    if syms == [] then None
    else if syms[0].addr == addr then Some(0)
    else match FirstAddr(syms[1..], addr)
      case None => None
      case Some(k) => Some(k + 1)
  }

  /**
   * The body of the `load_symbols` loop after `readline`: tokenize the line
   * held in `buf` (NUL at `n`) with two `strtok` calls and convert the
   * address with `strtoull`; the entry is `ParseLine` of that line, whatever
   * an earlier line left in `buf` after the NUL.
   */
  method ParseEntry(buf: array<char>, n: nat, tok: Tokenizer) returns (sym: Option<Symbol>)
    requires n < buf.Length && buf[n] == '\0'
    modifies buf, tok
    ensures sym == ParseLine(old(buf[..n]))
  {
    ghost var t := buf[..n] + ['\0'];
    ghost var b0 := buf[..];
    FirstNulAtMost(b0, 0, n);
    assert Agree(b0, t, n);
    StrtokAgree(b0, t, 0, n, " ");
    StrtokToken(b0, 0, " ");
    ghost var r1 := StrtokStep(t, 0, " ");
    var addrStr := tok.Strtok(buf, " ");
    ghost var b1 := buf[..];
    StrtokAgree(b1, r1.buf, r1.next, n, " ");
    var name := tok.Strtok(null, " ");
    if addrStr.Some? && name.Some? {
      ghost var r2 := StrtokStep(r1.buf, r1.next, " ");
      CStrStable(b1, r1.next, addrStr.value, " ");
      CStrAgree(b1, r1.buf, addrStr.value, n);
      CStrAgree(buf[..], r2.buf, name.value, n);
      TokensPair(t, " ");
      var addr := StrToUll(CStrAt(buf[..], addrStr.value), 16);
      sym := Some(Symbol(addr, Truncate(CStrAt(buf[..], name.value), MAX_NAME_LEN - 1)));
    } else {
      TokensPair(t, " ");
      sym := None;
    }
  }

  /** `symbols[]` and `symbol_count`. */
  class SymbolTable {
    var symbols: array<Symbol>
    var count: nat

    ghost predicate Valid()
      reads this
    {
      symbols.Length == MAX_SYMBOLS && count <= MAX_SYMBOLS
    }

    constructor ()
      ensures Valid() && count == 0 && fresh(symbols)
    {
      symbols := new Symbol[MAX_SYMBOLS](_ => Symbol(0, []));
      count := 0;
    }

    /**
     * `load_symbols`: parse `kernel.sym` line by line into `symbols[]`.
     * When the file cannot be opened nothing changes; otherwise the first
     * `symbol_count` entries are those of `LoadFrom` and the rest are left
     * as they were.  `tok` is the static state of `strtok`.
     */
    method LoadSymbols(file: Option<seq<char>>, tok: Tokenizer)
      requires Valid()
      modifies this, symbols, tok
      ensures Valid() && symbols == old(symbols)
      ensures file.None? ==> count == old(count) && symbols[..] == old(symbols[..])
      ensures file.Some? ==>
                && symbols[..count] == LoadFrom(file.value, 0, 0)
                && symbols[count..] == old(symbols[..])[count..]
    {
      if file.None? {
        return;
      }
      var data := file.value;
      var f := new File(data);
      var buf := new char[LINE_BUF];
      ghost var all := LoadFrom(data, 0, 0);
      ghost var orig := symbols[..];
      var i := 0;
      while i < MAX_SYMBOLS
        invariant 0 <= i <= MAX_SYMBOLS && f.data == data && f.off <= |data| && buf.Length == LINE_BUF
        invariant symbols == old(symbols) && Valid()
        invariant symbols[..i] + LoadFrom(data, f.off, i) == all
        invariant symbols[i..] == orig[i..]
        decreases |data| - f.off
      {
        var more, j := LoadLine(f, buf, tok, i);
        if !more {
          break;
        }
        i := j;
      }
      count := i;
    }

    /**
     * One round of the `load_symbols` loop with `i` entries stored: read a
     * line; stop at an empty one; otherwise store its entry, if it has one,
     * at index `i`.
     */
    method LoadLine(f: File, buf: array<char>, tok: Tokenizer, i: nat) returns (more: bool, j: nat)
      requires Valid() && i < MAX_SYMBOLS && buf.Length == LINE_BUF && f.off <= |f.data|
      modifies symbols, f, buf, tok
      ensures f.off <= |f.data|
      ensures !more ==> j == i && LoadFrom(f.data, old(f.off), i) == [] && symbols[..] == old(symbols[..])
      ensures more ==> f.off > old(f.off) && (j == i || j == i + 1)
      ensures more ==> symbols[..j] + LoadFrom(f.data, f.off, j)
                       == old(symbols[..i]) + LoadFrom(f.data, old(f.off), i)
      ensures more ==> symbols[j..] == old(symbols[..])[j..]
    {
      hide ParseLine;
      ghost var data := f.data;
      ghost var off := f.off;
      ghost var rest := LoadFrom(data, off, i);
      var n := ReadLine(f, buf, LINE_BUF);
      ghost var line := buf[..n];
      LoadFromStep(data, off, i, line, f.off);
      if n == 0 {
        return false, i;
      }
      var sym := ParseEntry(buf, n, tok);
      if sym.Some? {
        assert rest == [sym.value] + LoadFrom(data, f.off, i + 1);
        symbols[i] := sym.value;
        Snoc(symbols[..i + 1], symbols[..i], sym.value, LoadFrom(data, f.off, i + 1));
        return true, i + 1;
      } else {
        assert rest == LoadFrom(data, f.off, i);
        return true, i;
      }
    }

    /** `find_symbol(addr)`: the name of the first stored entry with that address, else "<unknown>". */
    method FindSymbol(addr: nat) returns (name: seq<char>)
      requires Valid()
      ensures var k := FirstAddr(symbols[..count], addr);
              name == if k.Some? then symbols[k.value].name else "<unknown>"
    {
      var i := 0;
      while i < count
        invariant 0 <= i <= count
        invariant forall j :: 0 <= j < i ==> symbols[j].addr != addr
      {
        if symbols[i].addr == addr {
          return symbols[i].name;
        }
        i := i + 1;
      }
      return "<unknown>";
    }
  }
}
