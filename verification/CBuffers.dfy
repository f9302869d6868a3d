/** The C string functions that write into a buffer. */
module CBuffers {
  import opened CText

  /** strcat: walks to the NUL and writes `text` and a new NUL there. */
  method Strcat(buf: array<char>, text: string)
    requires NUL !in text && |CStr(buf[..])| + |text| < buf.Length
    modifies buf
    ensures CStr(buf[..]) == old(CStr(buf[..])) + text
  {
    ghost var s := CStr(buf[..]);
    var at := 0;
    while buf[at] != NUL
      invariant 0 <= at <= |s|
      decreases |s| - at
    {
      assert buf[..][at] != NUL;
      at := at + 1;
    }
    assert at == |s| && buf[..at] == s;
    forall i | 0 <= i < |text| {
      buf[at + i] := text[i];
    }
    var end := at + |text|;
    assert buf[..at] == s && buf[at..end] == text;
    buf[end] := NUL;
    assert buf[..end] == s + text;
    CStrStopsAt(buf[..], end);
    assert buf[..][..end] == buf[..end];
  }

  /** strcpy: the bytes up to and including the NUL. */
  method Strcpy(to: array<char>, from: string)
    requires |CStr(from)| < to.Length && |CStr(from)| < |from|
    modifies to
    ensures CStr(to[..]) == CStr(from)
    ensures forall i :: |CStr(from)| < i < to.Length ==> to[i] == old(to[i])
  {
    var i := 0;
    while from[i] != NUL
      invariant 0 <= i <= |CStr(from)|
      invariant to[..i] == CStr(from)[..i]
      invariant forall k :: i <= k < to.Length ==> to[k] == old(to[k])
      decreases |CStr(from)| - i
    {
      to[i] := from[i];
      i := i + 1;
    }
    to[i] := NUL;
    assert to[..][..i] == to[..i];
    CStrStopsAt(to[..], i);
  }

  lemma CStrShorter(buf: string)
    requires NUL in buf
    ensures |CStr(buf)| < |buf|
  {
    assert |CStr(buf)| == |buf| ==> CStr(buf) == buf;
  }
}
