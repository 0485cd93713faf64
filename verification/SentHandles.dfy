/**
 File handles on their way to a server.  The 64 bytes of an fhandle3 do not say how many of them the
 server gave; fhandle3_length guesses, and only as many are pushed.
 */
module SentHandles {
  import opened Alignment
  import opened Xdr
  import FileHandles

  /** The words of an fhandle3 as the host sees them. */
  function HostHandle(little: bool, h: seq<Octet>): (ws: seq<FileHandles.Word>)
    requires |h| == HANDLE_SIZE
    ensures |ws| == FileHandles.HANDLE_WORDS
    ensures forall k :: 0 <= k < FileHandles.HANDLE_WORDS ==> ws[k] == HostWord(little, h[4 * k..4 * k + 4])
  {
    seq(FileHandles.HANDLE_WORDS, k requires 0 <= k < FileHandles.HANDLE_WORDS => HostWord(little, h[4 * k..4 * k + 4]))
  }

  function MeasuredWords(h: seq<Octet>): (n: nat)
    requires |h| == HANDLE_SIZE
    ensures n <= 8
  {
    FileHandles.HandleLength(HostHandle(false, h))
  }

  /** What is pushed of a handle. */
  function Sent(h: seq<Octet>): (s: seq<Octet>)
    requires |h| == HANDLE_SIZE
    ensures |s| <= 32
  {
    h[..4 * MeasuredWords(h)]
  }

  lemma Words(n: nat)
    ensures 4 * n % 4 == 0 && 4 * n / 4 == n
  {}

  lemma ZeroInAnyOrder(little: bool, s: seq<Octet>)
    requires |s| == 4
    ensures HostWord(little, s) == 0 <==> s == [0, 0, 0, 0]
  {
    hide Word;
    WordIsZero(s[0], s[1], s[2], s[3]);
    WordIsZero(s[3], s[2], s[1], s[0]);
  }

  lemma WordIsZero(a: Octet, b: Octet, c: Octet, d: Octet)
    ensures Word(a, b, c, d) == 0 <==> a == 0 && b == 0 && c == 0 && d == 0
  {}

  /** The measured length is the position of the first zero word, or eight. */
  lemma LengthIs(ws: seq<FileHandles.Word>, n: nat)
    requires FileHandles.IsHandle(ws) && n <= FileHandles.MEASURED_WORDS
    ensures FileHandles.HandleLength(ws) == n <==>
            (forall k :: 0 <= k < n ==> ws[k] != 0) && (n < FileHandles.MEASURED_WORDS ==> ws[n] == 0)
  {}

  /** It does not depend on the byte order of the host. */
  lemma MeasuredInAnyOrder(little: bool, h: seq<Octet>)
    requires |h| == HANDLE_SIZE
    ensures FileHandles.HandleLength(HostHandle(little, h)) == MeasuredWords(h)
  {
    hide HostWord;
    var n := FileHandles.HandleLength(HostHandle(false, h));
    forall k | 0 <= k < FileHandles.HANDLE_WORDS
      ensures HostHandle(little, h)[k] == 0 <==> HostHandle(false, h)[k] == 0
    {
      ZeroInAnyOrder(little, h[4 * k..4 * k + 4]);
      ZeroInAnyOrder(false, h[4 * k..4 * k + 4]);
    }
    LengthIs(HostHandle(little, h), n);
  }

  /** A handle of at most 32 bytes, in whole words, none of them zero. */
  predicate Measurable(h: seq<Octet>) {
    && |h| <= 32 && |h| % 4 == 0
    && forall k :: 0 <= k < |h| / 4 ==> h[4 * k..4 * k + 4] != [0, 0, 0, 0]
  }

  /** A server gets back the handle it gave exactly when the handle is measurable: others are cut or lengthened. */
  lemma SentIsGiven(h: seq<Octet>)
    requires |h| <= HANDLE_SIZE
    ensures Sent(InHandle(h)) == h <==> Measurable(h)
  {
    hide HostWord, FileHandles.HandleLength, HostHandle, MeasuredWords, Measurable, InHandle, Zeros;
    var f := InHandle(h);
    var n := MeasuredWords(f);
    InHandleParts(h);
    Words(n);
    WordsNotZero(f);
    MeasurableIs(h);
    if Sent(f) == h {
      forall k | 0 <= k < n
        ensures h[4 * k..4 * k + 4] != [0, 0, 0, 0]
      {
        assert h[4 * k..4 * k + 4] == f[4 * k..4 * k + 4];
      }
    } else if Measurable(h) {
      Words(|h| / 4);
      FirstZero(h, f, |h| / 4);
    }
  }

  lemma InHandleParts(h: seq<Octet>)
    requires |h| <= HANDLE_SIZE
    ensures |InHandle(h)| == HANDLE_SIZE && InHandle(h)[..|h|] == h
    ensures forall i :: |h| <= i < HANDLE_SIZE ==> InHandle(h)[i] == 0
  {}

  lemma MeasurableIs(h: seq<Octet>)
    ensures Measurable(h) <==>
            |h| <= 32 && |h| % 4 == 0 && forall k :: 0 <= k < |h| / 4 ==> h[4 * k..4 * k + 4] != [0, 0, 0, 0]
  {}

  /** The words pushed are not zero, and the next one is unless eight are pushed. */
  lemma WordsNotZero(f: seq<Octet>)
    requires |f| == HANDLE_SIZE
    ensures forall k :: 0 <= k < MeasuredWords(f) ==> f[4 * k..4 * k + 4] != [0, 0, 0, 0]
    ensures MeasuredWords(f) < 8 ==> f[4 * MeasuredWords(f)..4 * MeasuredWords(f) + 4] == [0, 0, 0, 0]
  {
    hide HostWord, FileHandles.HandleLength;
    var ws := HostHandle(false, f);
    var n := FileHandles.HandleLength(ws);
    LengthIs(ws, n);
    forall k | 0 <= k < n
      ensures f[4 * k..4 * k + 4] != [0, 0, 0, 0]
    {
      assert ws[k] != 0;
      ZeroInAnyOrder(false, f[4 * k..4 * k + 4]);
    }
    if n < 8 {
      ZeroInAnyOrder(false, f[4 * n..4 * n + 4]);
    }
  }

  lemma FirstZero(h: seq<Octet>, f: seq<Octet>, n: nat)
    requires |f| == HANDLE_SIZE && |h| == 4 * n <= 32 && f[..|h|] == h
    requires forall k :: 0 <= k < n ==> h[4 * k..4 * k + 4] != [0, 0, 0, 0]
    requires forall i :: |h| <= i < HANDLE_SIZE ==> f[i] == 0
    ensures Sent(f) == h
  {
    hide HostWord, FileHandles.HandleLength;
    var ws := HostHandle(false, f);
    forall k | 0 <= k < n
      ensures ws[k] != 0
    {
      ZeroInAnyOrder(false, f[4 * k..4 * k + 4]);
      assert h[4 * k..4 * k + 4] == f[4 * k..4 * k + 4];
    }
    if n < 8 {
      ZeroInAnyOrder(false, f[4 * n..4 * n + 4]);
    }
    LengthIs(ws, n);
  }

  /** The words of a measurable handle are zero from its measured length on, and there are some before. */
  lemma MeasurableWords(little: bool, h: seq<Octet>)
    requires Measurable(h) && h != []
    ensures |h| <= HANDLE_SIZE
    ensures var ws := HostHandle(little, InHandle(h));
            FileHandles.HandleLength(ws) > 0 && FileHandles.NothingAfter(ws, FileHandles.HandleLength(ws))
  {
    hide HostWord, FileHandles.HandleLength, InHandle, MeasuredWords;
    MeasurableIs(h);
    var f := InHandle(h);
    InHandleParts(h);
    SentIsGiven(h);
    MeasuredInAnyOrder(little, f);
    var n := MeasuredWords(f);
    assert |h| == 4 * n;
    forall k | n <= k < FileHandles.HANDLE_WORDS
      ensures HostHandle(little, f)[k] == 0
    {
      ZeroInAnyOrder(little, f[4 * k..4 * k + 4]);
    }
  }
}
