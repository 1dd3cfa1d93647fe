/** The header callback of main.c: a byte scanner that runs on every header
    chunk of a response and, when the chunk is the status line
    (`HTTP-version SP status-code ...`, section 4 of RFC 9112), copies the
    three bytes after `HTTP/` into the request's 4-byte version buffer. */
module HeaderSniffer {
  import opened CTypes

  const Nul: Byte := 0
  const Colon: Byte := 58

  /** The literal `HTTP/` that opens a status line. */
  const HttpPrefix: seq<Byte> := [72, 84, 84, 80, 47]

  /** Length of the caller's `char httpVersion[4]`. */
  const VersionBufferSize: nat := 4

  /** Bytes the `strncpy` writes into that buffer. */
  const VersionDigits: nat := 3

  /** Shortest chunk the callback inspects for a version. */
  const MinStatusLength: nat := 8

  /** `isspace` in the C locale: space, and tab through carriage return. */
  function IsSpace(b: Byte): (r: bool)
    ensures r <==> b == ' ' as int || b == '\t' as int || b == '\n' as int
                   || b == 0x0B || b == 0x0C || b == '\r' as int
  {
    b == 32 || 9 <= b <= 13
  }

  /** A byte at which the scan stops. */
  predicate IsStop(b: Byte) {
    b == Colon || IsSpace(b)
  }

  /** Position of the first colon or whitespace byte of `data`, or `|data|`
      when there is none. */
  function StopIndex(data: seq<Byte>): (k: nat)
    ensures k <= |data|
    ensures forall j :: 0 <= j < k ==> !IsStop(data[j])
    ensures k < |data| ==> IsStop(data[k])
  {
    if data == [] || IsStop(data[0]) then 0 else 1 + StopIndex(data[1..])
  }

  /** The two properties of `StopIndex` determine it. */
  lemma StopIndexUnique(data: seq<Byte>, k: nat)
    requires k <= |data|
    requires forall j :: 0 <= j < k ==> !IsStop(data[j])
    requires k < |data| ==> IsStop(data[k])
    ensures StopIndex(data) == k
  {
  }

  /** `strncmp(a, b, n) == 0`: the first `n` bytes agree, or they agree up to
      and including a NUL they share. */
  function StrNEqual(a: seq<Byte>, b: seq<Byte>, n: nat): (eq: bool)
    requires n <= |a| && n <= |b|
    ensures a[..n] == b[..n] ==> eq
  {
    n == 0 || (a[0] == b[0] && (a[0] == Nul || StrNEqual(a[1..], b[1..], n - 1)))
  }

  /** Against `HTTP/`, which holds no NUL, `strncmp(data, "HTTP/", 5) == 0`
      means exactly that the chunk starts with `HTTP/`. */
  lemma {:induction false} StrNEqualPrefix(data: seq<Byte>)
    requires |data| >= |HttpPrefix|
    ensures StrNEqual(data, HttpPrefix, |HttpPrefix|) <==> data[..|HttpPrefix|] == HttpPrefix
  {
    var p := HttpPrefix;
    if StrNEqual(data, p, 5) {
      assert data[0] == p[0] && StrNEqual(data[1..], p[1..], 4);
      assert data[1] == p[1] && StrNEqual(data[2..], p[2..], 3);
      assert data[2] == p[2] && StrNEqual(data[3..], p[3..], 2);
      assert data[3] == p[3] && StrNEqual(data[4..], p[4..], 1);
      assert data[4] == p[4];
      assert data[..5] == p;
    }
  }

  /** The `n` bytes `strncpy(dst, src, n)` writes: `src` up to and including
      its first NUL, then NUL padding. */
  function StrNCopy(src: seq<Byte>, n: nat): (r: seq<Byte>)
    requires n <= |src|
    ensures |r| == n
    ensures forall i :: 0 <= i < n ==> r[i] == if Nul in src[..i] then Nul else src[i]
  {
    if n == 0 then []
    else if src[0] == Nul then seq(n, _ => Nul)
    else
      var rest := StrNCopy(src[1..], n - 1);
      assert forall i :: 1 <= i < n ==> src[..i] == [src[0]] + src[1..][..i - 1];
      [src[0]] + rest
  }

  /** The chunk is one the callback takes for a status line: whitespace comes
      before any colon, it is at least 8 bytes long, and it begins with
      `HTTP/`. */
  predicate IsStatusLine(data: seq<Byte>) {
    var k := StopIndex(data);
    k < |data| && IsSpace(data[k]) && |data| >= MinStatusLength && data[..|HttpPrefix|] == HttpPrefix
  }

  /** The version buffer after one call of the callback on `data`. */
  function Sniff(data: seq<Byte>, buf: seq<Byte>): (r: seq<Byte>)
    requires |buf| >= VersionDigits
    ensures |r| == |buf|
    ensures r[VersionDigits..] == buf[VersionDigits..]
    ensures !IsStatusLine(data) ==> r == buf
  {
    if IsStatusLine(data) then StrNCopy(data[5..MinStatusLength], VersionDigits) + buf[VersionDigits..]
    else buf
  }

  /** headerCallback. The chunk holds `size * nmemb` bytes (computed in
      `size_t`); the scan reads only those, writes at most the first three
      bytes of `httpVersion`, and reports the whole chunk as consumed. */
  method HeaderCallback(data: seq<Byte>, size: SizeT, nmemb: SizeT, httpVersion: array<Byte>)
    returns (consumed: SizeT)
    requires |data| == MulSize(size, nmemb)
    requires httpVersion.Length >= VersionDigits
    modifies httpVersion
    ensures consumed == MulSize(size, nmemb)
    ensures httpVersion[..] == Sniff(data, old(httpVersion[..]))
  {
    var total := MulSize(size, nmemb);
    var colon := 0;
    while colon < total
      invariant colon <= total
      invariant forall j :: 0 <= j < colon ==> !IsStop(data[j])
    {
      if data[colon] == Colon {
        StopIndexUnique(data, colon);
        break;
      } else if IsSpace(data[colon]) {
        StopIndexUnique(data, colon);
        if total >= MinStatusLength {
          StrNEqualPrefix(data);
          if StrNEqual(data, HttpPrefix, |HttpPrefix|) {
            var v := StrNCopy(data[5..MinStatusLength], VersionDigits);
            httpVersion[0], httpVersion[1], httpVersion[2] := v[0], v[1], v[2];
          }
        }
        break;
      }
      colon := colon + 1;
    }
    if colon == total {
      StopIndexUnique(data, colon);
    }
    return total;
  }

  /** A colon met before any whitespace marks an ordinary header field: the
      buffer is left as it was. */
  lemma ColonFirstLeavesBuffer(data: seq<Byte>, buf: seq<Byte>, i: nat)
    requires |buf| >= VersionDigits
    requires i < |data| && data[i] == Colon
    requires forall j :: 0 <= j < i ==> !IsSpace(data[j])
    ensures Sniff(data, buf) == buf
  {
    var k := StopIndex(data);
    assert k <= i;
  }

  /** A chunk with neither a colon nor whitespace leaves the buffer as it was. */
  lemma NoStopLeavesBuffer(data: seq<Byte>, buf: seq<Byte>)
    requires |buf| >= VersionDigits
    requires forall j :: 0 <= j < |data| ==> !IsStop(data[j])
    ensures Sniff(data, buf) == buf
  {
    StopIndexUnique(data, |data|);
  }

  /** A status line (whitespace first, at least 8 bytes, `HTTP/` prefix):
      bytes 0..2 of the buffer take `data[5 + i]` while no NUL has been met
      in `data[5..5 + i]`, and NUL after one; the rest of the buffer is
      untouched. */
  lemma StatusLineWritesVersion(data: seq<Byte>, buf: seq<Byte>, k: nat)
    requires |buf| >= VersionDigits
    requires k < |data| && IsSpace(data[k])
    requires forall j :: 0 <= j < k ==> !IsStop(data[j])
    requires |data| >= MinStatusLength && data[..5] == HttpPrefix
    ensures |Sniff(data, buf)| == |buf|
    ensures forall i :: 0 <= i < VersionDigits ==>
      Sniff(data, buf)[i] == if Nul in data[5..5 + i] then Nul else data[5 + i]
    ensures Sniff(data, buf)[VersionDigits..] == buf[VersionDigits..]
  {
    StopIndexUnique(data, k);
    var src := data[5..MinStatusLength];
    var r := Sniff(data, buf);
    forall i | 0 <= i < VersionDigits
      ensures r[i] == if Nul in data[5..5 + i] then Nul else data[5 + i]
    {
      assert src[..i] == data[5..5 + i];
    }
  }

  /** The buffer the caller zeroes (`char httpVersion[4]`) stays a
      NUL-terminated C string of at most three characters after any single
      chunk. */
  lemma SniffKeepsTerminator(data: seq<Byte>, buf: seq<Byte>)
    requires |buf| == VersionBufferSize && buf[3] == Nul
    ensures |Sniff(data, buf)| == VersionBufferSize && Sniff(data, buf)[3] == Nul
  {
    assert Sniff(data, buf)[3] == Sniff(data, buf)[VersionDigits..][0];
  }

  /** The version buffer after the callback has run on each chunk of `chunks`
      in order. */
  function SniffAll(chunks: seq<seq<Byte>>, buf: seq<Byte>): seq<Byte>
    requires |buf| >= VersionDigits
  {
    if chunks == [] then buf
    else SniffAll(chunks[1..], Sniff(chunks[0], buf))
  }

  /** Over a whole response the buffer keeps its length and terminator. */
  lemma {:induction false} SniffAllKeepsTerminator(chunks: seq<seq<Byte>>, buf: seq<Byte>)
    requires |buf| == VersionBufferSize && buf[3] == Nul
    ensures |SniffAll(chunks, buf)| == VersionBufferSize && SniffAll(chunks, buf)[3] == Nul
  {
    if chunks != [] {
      SniffKeepsTerminator(chunks[0], buf);
      SniffAllKeepsTerminator(chunks[1..], Sniff(chunks[0], buf));
    }
  }

  /** Over a whole response the buffer holds the version of the LAST status
      line among the chunks (an interim 1xx status line is overwritten by
      the final one), and is untouched if there was none. */
  lemma {:induction false} SniffAllTakesLastStatusLine(chunks: seq<seq<Byte>>, buf: seq<Byte>, last: nat)
    requires |buf| >= VersionDigits
    requires last < |chunks| && IsStatusLine(chunks[last])
    requires forall j :: last < j < |chunks| ==> !IsStatusLine(chunks[j])
    ensures SniffAll(chunks, buf) ==
      StrNCopy(chunks[last][5..MinStatusLength], VersionDigits) + buf[VersionDigits..]
  {
    if last == 0 {
      SniffAllWithoutStatusLine(chunks[1..], Sniff(chunks[0], buf));
    } else {
      SniffAllTakesLastStatusLine(chunks[1..], Sniff(chunks[0], buf), last - 1);
    }
  }

  /** A run of chunks none of which is a status line leaves the buffer as it
      was. */
  lemma {:induction false} SniffAllWithoutStatusLine(chunks: seq<seq<Byte>>, buf: seq<Byte>)
    requires |buf| >= VersionDigits
    requires forall j :: 0 <= j < |chunks| ==> !IsStatusLine(chunks[j])
    ensures SniffAll(chunks, buf) == buf
  {
    if chunks != [] {
      SniffAllWithoutStatusLine(chunks[1..], Sniff(chunks[0], buf));
    }
  }

  /** An ASCII string as the bytes of a chunk. */
  function Ascii(s: string): (r: seq<Byte>)
    requires forall i :: 0 <= i < |s| ==> s[i] as int < 256
    ensures |r| == |s| && forall i :: 0 <= i < |s| ==> r[i] == s[i] as int
  {
    seq(|s|, i requires 0 <= i < |s| => s[i] as int)
  }

  /** A status line whose bytes 5..7 hold no NUL: the buffer gets exactly
      those three bytes, and keeps its terminator. */
  lemma StatusLineVersion(data: seq<Byte>, k: nat)
    requires k < |data| && IsSpace(data[k])
    requires forall j :: 0 <= j < k ==> !IsStop(data[j])
    requires |data| >= MinStatusLength && data[..5] == HttpPrefix
    requires Nul !in data[5..MinStatusLength]
    ensures Sniff(data, [Nul, Nul, Nul, Nul]) == data[5..MinStatusLength] + [Nul]
  {
    var buf := [Nul, Nul, Nul, Nul];
    StatusLineWritesVersion(data, buf, k);
    var r := Sniff(data, buf);
    forall i | 0 <= i < VersionDigits ensures r[i] == data[5 + i] {
      assert data[5..5 + i] <= data[5..MinStatusLength];
      assert Nul !in data[5..5 + i];
    }
    assert r[VersionDigits..] == [Nul];
    assert r == r[..VersionDigits] + r[VersionDigits..];
  }

  /** `HTTP/1.1 200 OK` yields the version string `1.1`. */
  lemma Http11StatusLine()
    ensures Sniff(Ascii("HTTP/1.1 200 OK\r\n"), [Nul, Nul, Nul, Nul]) == Ascii("1.1") + [Nul]
  {
    var data := Ascii("HTTP/1.1 200 OK\r\n");
    assert data[..5] == HttpPrefix;
    assert data[5] == 49 && data[6] == 46 && data[7] == 49;
    assert data[5..MinStatusLength] == [49, 46, 49] == Ascii("1.1");
    StatusLineVersion(data, 8);
  }

  /** An HTTP/2 status line has a one-character version, so the three bytes
      copied are `2`, the space, and the first digit of the status code. */
  lemma Http2StatusLine()
    ensures Sniff(Ascii("HTTP/2 200\r\n"), [Nul, Nul, Nul, Nul]) == Ascii("2 2") + [Nul]
  {
    var data := Ascii("HTTP/2 200\r\n");
    assert data[..5] == HttpPrefix;
    assert data[5..MinStatusLength] == [50, 32, 50] == Ascii("2 2");
    StatusLineVersion(data, 6);
  }

  // ---------------------------------------------------------------------
  // The version as evidently intended: only the bytes of the version token,
  // which ends at the whitespace the scan stopped at, NUL-padded to three.

  /** In a status line the scan stops only after the `HTTP/` prefix. */
  lemma StatusLineStopsAfterPrefix(data: seq<Byte>)
    requires IsStatusLine(data)
    ensures |HttpPrefix| <= StopIndex(data) < |data|
  {
    forall j | 0 <= j < |HttpPrefix| ensures !IsStop(data[j]) {
      assert data[j] == data[..|HttpPrefix|][j];
    }
  }

  /** The three bytes the intended copy writes: the version token, cut at
      three bytes, as `strncpy` copies it, NUL-padded. */
  function VersionToken(data: seq<Byte>): (r: seq<Byte>)
    requires IsStatusLine(data)
    ensures |r| == VersionDigits
  {
    StatusLineStopsAfterPrefix(data);
    var t := if StopIndex(data) < MinStatusLength then StopIndex(data) else MinStatusLength;
    StrNCopy(data[5..t] + seq(MinStatusLength - t, _ => Nul), VersionDigits)
  }

  /** The corrected callback's effect on the version buffer. */
  function SniffCorrected(data: seq<Byte>, buf: seq<Byte>): (r: seq<Byte>)
    requires |buf| >= VersionDigits
    ensures |r| == |buf|
    ensures r[VersionDigits..] == buf[VersionDigits..]
    ensures !IsStatusLine(data) ==> r == buf
  {
    if IsStatusLine(data) then VersionToken(data) + buf[VersionDigits..] else buf
  }

  /** Corrected, byte `i` of the buffer is byte `i` of the version token
      (up to its first NUL), and NUL once the token has ended. */
  lemma CorrectedWritesVersionToken(data: seq<Byte>, buf: seq<Byte>, i: nat)
    requires |buf| >= VersionDigits && IsStatusLine(data) && i < VersionDigits
    ensures SniffCorrected(data, buf)[i] ==
      if 5 + i < StopIndex(data) && Nul !in data[5..5 + i] then data[5 + i] else Nul
  {
    StatusLineStopsAfterPrefix(data);
    var t := if StopIndex(data) < MinStatusLength then StopIndex(data) else MinStatusLength;
    var src: seq<Byte> := data[5..t] + seq(MinStatusLength - t, _ => Nul);
    assert VersionToken(data) == StrNCopy(src, VersionDigits);
    if 5 + i < StopIndex(data) {
      assert 5 + i < t <= |data|;
      var token := data[5..t];
      assert src[..i] == token[..i];
      assert token[..i] == data[5..5 + i];
      assert src[i] == token[i] == data[5 + i];
    } else {
      assert src[i] == Nul;
    }
  }

  /** For a version token of three bytes or more (`1.1`, `1.0`) the
      corrected callback does exactly what the code does. */
  lemma CorrectedAgreesOnLongVersions(data: seq<Byte>, buf: seq<Byte>)
    requires |buf| >= VersionDigits
    requires StopIndex(data) >= MinStatusLength
    ensures SniffCorrected(data, buf) == Sniff(data, buf)
  {
    if IsStatusLine(data) {
      assert data[5..MinStatusLength] + seq(0, _ => Nul) == data[5..MinStatusLength];
    }
  }

  /** Corrected, `HTTP/2 200` yields the version string `2`. */
  lemma CorrectedHttp2StatusLine()
    ensures SniffCorrected(Ascii("HTTP/2 200\r\n"), [Nul, Nul, Nul, Nul]) == Ascii("2") + [Nul, Nul, Nul]
  {
    var data := Ascii("HTTP/2 200\r\n");
    assert data[..5] == HttpPrefix;
    StopIndexUnique(data, 6);
    assert data[5] == 50 && data[5..6] == [50];
    var src: seq<Byte> := data[5..6] + seq(2, _ => Nul);
    assert src == [50, Nul, Nul];
    assert StrNCopy(src, 3) == [50, Nul, Nul];
  }

  /** A header field line leaves the buffer as it was. */
  lemma HeaderFieldLine(buf: seq<Byte>)
    requires |buf| >= VersionDigits
    ensures Sniff(Ascii("Content-Type: text/html\r\n"), buf) == buf
  {
    ColonFirstLeavesBuffer(Ascii("Content-Type: text/html\r\n"), buf, 12);
  }
}
