/** Worked examples of `extractVideoId`. Each URL is given as its text and
    read as the UTF-16 code units JavaScript holds. Each proof is split into
    its parts: where group 1 matches, that no marker follows it, and where
    group 7 starts and ends; `ExtractVideoIdFollowsMatch` then gives the
    result. */
module ServerExamples {
  import opened Common
  import opened JsText
  import opened Server

  /** A code unit that begins no alternative of group 1 carries no marker. */
  lemma NoLeadAt(t: string, q: nat)
    requires q < |t| && t[q] as int < 0x1_0000
    requires t[q] != 'y' && t[q] != 'v' && t[q] != '/' && t[q] != 'e' && t[q] != 'w'
    ensures MarkerLength(BmpUnits(t), q) == 0
  {
  }

  /** A text that differs from `lit` at offset `j` past `q` does not hold
      `lit` at `q`. */
  lemma NoLiteralAt(t: string, q: nat, lit: string, j: nat)
    requires j < |lit| && q + j < |t| && t[q + j] != lit[j]
    requires t[q + j] as int < 0x1_0000 && lit[j] as int < 0x1_0000
    ensures !LiteralAt(BmpUnits(t), q, lit)
  {
  }

  /** `^.*` reaches past printable ASCII text. */
  lemma PrintableReachable(t: string, p: nat)
    requires p <= |t|
    requires forall k | 0 <= k < p :: 0x20 <= t[k] as int < 0x7F
    ensures Reachable(BmpUnits(t), p)
  {
  }

  // ----- a watch URL ---------------------------------------------------------

  const WatchText := "https://www.youtube.com/watch?v=dQw4w9WgXcQ"
  const WatchUrl := BmpUnits(WatchText)

  lemma WatchUrlIsUtf16()
    ensures WatchUrl == Utf16(WatchText)
  {
    BmpUnitsIsUtf16(WatchText);
  }

  lemma WatchUrlMarker()
    ensures MarkerLength(WatchUrl, 24) == 6
  {
    assert WatchText[24..30] == "watch?";
    BmpUnitsSlice(WatchText, 24, 30);
    assert WatchUrl[24] == WatchUrl[24..30][0];
  }

  lemma WatchUrlNoLaterMarker()
    ensures forall q :: 24 < q ==> MarkerLength(WatchUrl, q) == 0
  {
    forall q | 24 < q
      ensures MarkerLength(WatchUrl, q) == 0
    {
      if q >= |WatchText| {
      } else if q == 30 {
        NoLiteralAt(WatchText, 30, "v/", 1);
      } else if q == 34 {
        NoLiteralAt(WatchText, 34, "watch?", 1);
      } else if q == 36 {
        NoLiteralAt(WatchText, 36, "watch?", 1);
      } else {
        NoLeadAt(WatchText, q);
      }
    }
  }

  lemma WatchUrlGroupBounds()
    ensures GroupStart(WatchUrl, 24) == 32
    ensures forall k :: 32 <= k < 43 ==> !IsSeparator(WatchUrl[k])
  {
    WatchUrlMarker();
    assert WatchText[30..32] == "v=";
  }

  lemma WatchUrlMatch()
    ensures RegexMatch(WatchUrl, 24, 32, 43)
  {
    PrintableReachable(WatchText, 24);
    WatchUrlMarker();
    WatchUrlNoLaterMarker();
    WatchUrlGroupBounds();
  }

  lemma WatchUrlGroup()
    ensures WatchUrl[32..43] == BmpUnits("dQw4w9WgXcQ")
  {
    assert WatchText[32..43] == "dQw4w9WgXcQ";
    BmpUnitsSlice(WatchText, 32, 43);
  }

  /** The usual watch URL yields its id. */
  lemma WatchUrlExample()
    ensures ExtractVideoId(WatchUrl) == Some(BmpUnits("dQw4w9WgXcQ"))
  {
    WatchUrlMatch();
    ExtractVideoIdFollowsMatch(WatchUrl, 24, 32, 43);
    WatchUrlGroup();
  }

  // ----- a short link with a query -----------------------------------------

  const ShortText := "https://youtu.be/dQw4w9WgXcQ?t=42"
  const ShortUrl := BmpUnits(ShortText)

  lemma ShortUrlIsUtf16()
    ensures ShortUrl == Utf16(ShortText)
  {
    BmpUnitsIsUtf16(ShortText);
  }

  lemma ShortUrlMarker()
    ensures MarkerLength(ShortUrl, 8) == 9
  {
    var host := ShortText[..17];
    assert host == "https://youtu.be/";
    assert ShortText[8..13] == host[8..13] == "youtu";
    assert ShortText[14..17] == host[14..17] == "be/";
    BmpUnitsSlice(ShortText, 8, 13);
    BmpUnitsSlice(ShortText, 14, 17);
    assert ShortUrl[8] == ShortUrl[8..13][0];
  }

  lemma ShortUrlNoLaterMarker()
    ensures forall q :: 8 < q ==> MarkerLength(ShortUrl, q) == 0
  {
    forall q | 8 < q
      ensures MarkerLength(ShortUrl, q) == 0
    {
      if q >= |ShortText| {
      } else if q == 15 {
        NoLiteralAt(ShortText, 15, "embed/", 1);
      } else if q == 16 {
        NoLiteralAt(ShortText, 16, "/u/", 1);
      } else if q == 19 {
        NoLiteralAt(ShortText, 19, "watch?", 1);
      } else if q == 21 {
        NoLiteralAt(ShortText, 21, "watch?", 1);
      } else {
        NoLeadAt(ShortText, q);
      }
    }
  }

  lemma ShortUrlGroupBounds()
    ensures GroupStart(ShortUrl, 8) == 17
    ensures forall k :: 17 <= k < 28 ==> !IsSeparator(ShortUrl[k])
    ensures IsSeparator(ShortUrl[28])
  {
    ShortUrlMarker();
  }

  lemma ShortUrlMatch()
    ensures RegexMatch(ShortUrl, 8, 17, 28)
  {
    PrintableReachable(ShortText, 8);
    ShortUrlMarker();
    ShortUrlNoLaterMarker();
    ShortUrlGroupBounds();
  }

  lemma ShortUrlGroup()
    ensures ShortUrl[17..28] == BmpUnits("dQw4w9WgXcQ")
  {
    assert ShortText[17..28] == "dQw4w9WgXcQ";
    BmpUnitsSlice(ShortText, 17, 28);
  }

  /** A short link yields its id, which stops at the query's `?`. */
  lemma ShortUrlExample()
    ensures ExtractVideoId(ShortUrl) == Some(BmpUnits("dQw4w9WgXcQ"))
  {
    ShortUrlMatch();
    ExtractVideoIdFollowsMatch(ShortUrl, 8, 17, 28);
    ShortUrlGroup();
  }

  // ----- a group 7 of the wrong length --------------------------------------

  const BadLengthText := "https://youtu.be/short"
  const BadLengthUrl := BmpUnits(BadLengthText)

  lemma BadLengthUrlMarker()
    ensures MarkerLength(BadLengthUrl, 8) == 9
  {
    var host := BadLengthText[..17];
    assert host == "https://youtu.be/";
    assert BadLengthText[8..13] == host[8..13] == "youtu";
    assert BadLengthText[14..17] == host[14..17] == "be/";
    BmpUnitsSlice(BadLengthText, 8, 13);
    BmpUnitsSlice(BadLengthText, 14, 17);
    assert BadLengthUrl[8] == BadLengthUrl[8..13][0];
  }

  lemma BadLengthUrlNoLaterMarker()
    ensures forall q :: 8 < q ==> MarkerLength(BadLengthUrl, q) == 0
  {
    forall q | 8 < q
      ensures MarkerLength(BadLengthUrl, q) == 0
    {
      if q >= |BadLengthText| {
      } else if q == 15 {
        NoLiteralAt(BadLengthText, 15, "embed/", 1);
      } else if q == 16 {
        NoLiteralAt(BadLengthText, 16, "/u/", 1);
      } else {
        NoLeadAt(BadLengthText, q);
      }
    }
  }

  lemma BadLengthUrlGroupBounds()
    ensures GroupStart(BadLengthUrl, 8) == 17
    ensures forall k :: 17 <= k < 22 ==> !IsSeparator(BadLengthUrl[k])
  {
    BadLengthUrlMarker();
  }

  lemma BadLengthUrlMatch()
    ensures RegexMatch(BadLengthUrl, 8, 17, 22)
  {
    PrintableReachable(BadLengthText, 8);
    BadLengthUrlMarker();
    BadLengthUrlNoLaterMarker();
    BadLengthUrlGroupBounds();
  }

  /** A match whose group 7 is not eleven code units long yields `null`. */
  lemma BadLengthUrlExample()
    ensures ExtractVideoId(BadLengthUrl) == None
  {
    BadLengthUrlMatch();
    ExtractVideoIdFollowsMatch(BadLengthUrl, 8, 17, 22);
  }

  // ----- characters above U+FFFF ---------------------------------------------

  /** `youtu` and `be/` around an emoji: the emoji is two code units and
      `.` matches one, so there is no marker. */
  const EmojiDotUrl := BmpUnits("youtu") + EncodeChar('\U{1F600}') + BmpUnits("be/")

  lemma EmojiDotUrlIsUtf16()
    ensures EmojiDotUrl == Utf16("youtu" + ['\U{1F600}'] + "be/")
  {
    BmpUnitsAroundChar("youtu", '\U{1F600}', "be/");
  }

  lemma EmojiDotIsNoMarker()
    ensures forall p: nat :: MarkerLength(EmojiDotUrl, p) == 0
  {
    var emoji := EncodeChar('\U{1F600}');
    assert |EmojiDotUrl| == 10;
    forall p: nat
      ensures MarkerLength(EmojiDotUrl, p) == 0
    {
      if p < 5 {
        assert EmojiDotUrl[p] == BmpUnits("youtu")[p];
        assert EmojiDotUrl[6] == emoji[1];
      } else if p < 7 {
        assert EmojiDotUrl[p] == emoji[p - 5];
      } else if p < 10 {
        assert EmojiDotUrl[p] == BmpUnits("be/")[p - 7];
      }
    }
  }

  lemma EmojiDotUrlExample()
    ensures ExtractVideoId(EmojiDotUrl) == None
  {
    EmojiDotIsNoMarker();
    ExtractVideoIdWithoutMatch(EmojiDotUrl);
  }

  /** An id of ten characters whose last is an emoji is eleven code units
      long, so it is accepted. */
  const EmojiIdText := "v/dQw4w9WgX"
  const EmojiIdUrl := BmpUnits(EmojiIdText) + EncodeChar('\U{1F600}')

  lemma EmojiIdUrlIsUtf16()
    ensures EmojiIdUrl == Utf16(EmojiIdText + ['\U{1F600}'])
  {
    BmpUnitsThenChar(EmojiIdText, '\U{1F600}');
  }

  lemma EmojiIdUrlMarker()
    ensures |EmojiIdUrl| == 13
    ensures MarkerLength(EmojiIdUrl, 0) == 2
  {
    assert EmojiIdText[..2] == "v/";
    BmpUnitsSlice(EmojiIdText, 0, 2);
    assert EmojiIdUrl[..2] == BmpUnits(EmojiIdText)[..2];
    assert EmojiIdUrl[0] == EmojiIdUrl[..2][0];
  }

  lemma EmojiIdUrlNoLaterMarker()
    ensures forall q | 0 < q :: MarkerLength(EmojiIdUrl, q) == 0
  {
    var emoji := EncodeChar('\U{1F600}');
    assert |EmojiIdUrl| == 13;
    forall q | 0 < q
      ensures MarkerLength(EmojiIdUrl, q) == 0
    {
      if q < 11 {
        assert forall k | 0 <= k < 11 :: EmojiIdUrl[k] == BmpUnits(EmojiIdText)[k];
        if q == 1 {
          assert EmojiIdText[1..3] == "/d";
        } else if q == 4 || q == 6 {
          assert EmojiIdText[q + 1] != 'a';
        } else {
          assert EmojiIdText[q] != 'y' && EmojiIdText[q] != 'v' && EmojiIdText[q] != '/';
          assert EmojiIdText[q] != 'e' && EmojiIdText[q] != 'w';
        }
      } else if q < 13 {
        assert EmojiIdUrl[q] == emoji[q - 11];
      }
    }
  }

  lemma EmojiIdUrlGroupBounds()
    ensures GroupStart(EmojiIdUrl, 0) == 2
    ensures forall k :: 2 <= k < 13 ==> !IsSeparator(EmojiIdUrl[k])
  {
    var emoji := EncodeChar('\U{1F600}');
    EmojiIdUrlMarker();
    assert EmojiIdUrl[2] == BmpUnits(EmojiIdText)[2];
    forall k | 2 <= k < 13
      ensures !IsSeparator(EmojiIdUrl[k])
    {
      if k < 11 {
        assert EmojiIdUrl[k] == BmpUnits(EmojiIdText)[k];
      } else {
        assert EmojiIdUrl[k] == emoji[k - 11];
      }
    }
  }

  lemma EmojiIdUrlMatch()
    ensures RegexMatch(EmojiIdUrl, 0, 2, 13)
  {
    EmojiIdUrlMarker();
    EmojiIdUrlNoLaterMarker();
    EmojiIdUrlGroupBounds();
  }

  lemma EmojiIdUrlExample()
    ensures ExtractVideoId(EmojiIdUrl) == Some(EmojiIdUrl[2..])
    ensures |EmojiIdUrl[2..]| == 11
  {
    assert |EmojiIdUrl| == 13;
    EmojiIdUrlMatch();
    ExtractVideoIdFollowsMatch(EmojiIdUrl, 0, 2, 13);
    assert EmojiIdUrl[2..13] == EmojiIdUrl[2..];
  }
}
