/** The rolling session transcript of amos/src/routes.rs: two tasks append tagged
    text to one UTF-8 buffer, and the front is cut off at a character boundary. */
module Transcript {

  type Byte = b: int | 0 <= b < 256

  const CAP: nat := 30_000

  // ----- UTF-8 (section 3 of RFC 3629) -----

  predicate Continuation(b: Byte) {
    0x80 <= b < 0xC0
  }

  function EncodeChar(c: char): (bytes: seq<Byte>)
    ensures 1 <= |bytes| <= 4
    ensures !Continuation(bytes[0])
    ensures forall i | 1 <= i < |bytes| :: Continuation(bytes[i])
  {
    var n := c as int;
    if n < 0x80 then [n]
    else if n < 0x800 then [0xC0 + n / 0x40, 0x80 + n % 0x40]
    else if n < 0x1_0000 then [0xE0 + n / 0x1000, 0x80 + n / 0x40 % 0x40, 0x80 + n % 0x40]
    else [0xF0 + n / 0x4_0000, 0x80 + n / 0x1000 % 0x40, 0x80 + n / 0x40 % 0x40, 0x80 + n % 0x40]
  }

  function Encode(text: string): seq<Byte> {
    if text == "" then [] else EncodeChar(text[0]) + Encode(text[1..])
  }

  /** The first character of a byte string, and how many bytes it takes. */
  function DecodeChar(bytes: seq<Byte>): (r: (int, nat))
    requires bytes != []
    ensures 1 <= r.1 <= |bytes|
  {
    var lead := bytes[0];
    if lead < 0x80 then (lead, 1)
    else if lead < 0xE0 && |bytes| >= 2 then ((lead - 0xC0) * 0x40 + (bytes[1] - 0x80), 2)
    else if lead < 0xF0 && |bytes| >= 3 then ((lead - 0xE0) * 0x1000 + (bytes[1] - 0x80) * 0x40 + (bytes[2] - 0x80), 3)
    else if |bytes| >= 4 then
      ((lead - 0xF0) * 0x4_0000 + (bytes[1] - 0x80) * 0x1000 + (bytes[2] - 0x80) * 0x40 + (bytes[3] - 0x80), 4)
    else (0xFFFD, 1)
  }

  function Decode(bytes: seq<Byte>): seq<int> {
    if bytes == [] then [] else [DecodeChar(bytes).0] + Decode(bytes[DecodeChar(bytes).1..])
  }

  function Scalars(text: string): seq<int> {
    seq(|text|, i requires 0 <= i < |text| => text[i] as int)
  }

  lemma CharDecodesBack(c: char, rest: seq<Byte>)
    ensures DecodeChar(EncodeChar(c) + rest) == (c as int, |EncodeChar(c)|)
  {
    var n := c as int;
    if 0x800 <= n < 0x1_0000 {
      assert n / 0x1000 * 0x1000 + n / 0x40 % 0x40 * 0x40 + n % 0x40 == n;
    } else if n >= 0x1_0000 {
      assert n / 0x4_0000 * 0x4_0000 + n / 0x1000 % 0x40 * 0x1000 + n / 0x40 % 0x40 * 0x40 + n % 0x40 == n;
    }
  }

  /** The encoding loses nothing, so what is said of kept bytes is true of kept text. */
  lemma {:induction false} TextDecodesBack(text: string)
    ensures Decode(Encode(text)) == Scalars(text)
  {
    if text == "" {
    } else {
      var head, rest := EncodeChar(text[0]), Encode(text[1..]);
      CharDecodesBack(text[0], rest);
      assert (head + rest)[|head|..] == rest;
      TextDecodesBack(text[1..]);
      assert Scalars(text) == [text[0] as int] + Scalars(text[1..]);
    }
  }

  /** `str::is_char_boundary`. */
  predicate IsCharBoundary(bytes: seq<Byte>, i: nat) {
    i == 0 || i == |bytes| || (i < |bytes| && !Continuation(bytes[i]))
  }

  lemma Associates(a: seq<Byte>, b: seq<Byte>, c: seq<Byte>)
    ensures a + (b + c) == a + b + c
  {
  }

  lemma {:induction false} EncodeAppend(a: string, b: string)
    ensures Encode(a + b) == Encode(a) + Encode(b)
  {
    if a == "" {
      assert a + b == b;
    } else {
      var whole := a + b;
      assert whole[0] == a[0] && whole[1..] == a[1..] + b;
      EncodeAppend(a[1..], b);
      Associates(EncodeChar(a[0]), Encode(a[1..]), Encode(b));
    }
  }

  // ----- The one-shot answer -----

  /** One call: who spoke, and what. */
  datatype Say = Say(speaker: char, text: string)

  function Tag(speaker: char): string {
    if speaker == 'u' then "\n[owner]: " else "\n[amos]: "
  }

  function LastSpeaker(calls: seq<Say>): char {
    if calls == [] then ' ' else calls[|calls| - 1].speaker
  }

  /** What a call adds to a log whose last speaker was `last`. */
  function Entry(last: char, say: Say): string {
    (if last == say.speaker then "" else Tag(say.speaker)) + say.text
  }

  /** Everything said, tagged where the voice changes, with nothing dropped. */
  function FullLog(calls: seq<Say>): string {
    if calls == [] then ""
    else
      var before := calls[..|calls| - 1];
      FullLog(before) + Entry(LastSpeaker(before), calls[|calls| - 1])
  }

  /** The longest suffix of whole characters whose encoding fits the cap. */
  function Window(text: string): string {
    if |Encode(text)| <= CAP then text else Window(text[1..])
  }

  lemma {:induction false} WindowFits(text: string)
    ensures |Encode(Window(text))| <= 30_000
    ensures |Window(text)| <= |text| && Window(text) == text[|text| - |Window(text)|..]
    ensures Window(text) != text ==> |Encode(Window(text))| > 29_996
    decreases |text|
  {
    if |Encode(text)| <= CAP {
    } else {
      WindowFits(text[1..]);
      assert |Encode(text)| <= |Encode(text[1..])| + 4;
    }
  }

  /** No longer suffix fits. */
  lemma {:induction false} WindowIsLongest(text: string, k: nat)
    requires k <= |text| && |Encode(text[k..])| <= CAP
    ensures |text[k..]| <= |Window(text)|
    decreases |text|
  {
    if |Encode(text)| <= CAP {
    } else {
      assert text[0..] == text;
      assert text[k..] == text[1..][k - 1..];
      WindowIsLongest(text[1..], k - 1);
    }
  }

  /** Cutting before appending loses nothing that cutting at the end would keep. */
  lemma {:induction false} WindowAbsorbs(a: string, b: string)
    ensures Window(Window(a) + b) == Window(a + b)
    decreases |a|
  {
    if |Encode(a)| <= CAP {
    } else {
      WindowAbsorbs(a[1..], b);
      EncodeAppend(a, b);
      assert (a + b)[1..] == a[1..] + b;
    }
  }

  /** The byte scan finds the window: the first character boundary at or after the
      overflow is where the longest fitting suffix starts. */
  lemma {:induction false} BoundaryIsWindow(text: string, cut: nat)
    requires |Encode(text)| > CAP && |Encode(text)| - CAP <= cut <= |Encode(text)|
    requires IsCharBoundary(Encode(text), cut)
    requires forall i | |Encode(text)| - CAP <= i < cut :: !IsCharBoundary(Encode(text), i)
    ensures Encode(text)[cut..] == Encode(Window(text))
    decreases |text|
  {
    var bytes, head, rest := Encode(text), EncodeChar(text[0]), Encode(text[1..]);
    var over := |bytes| - CAP;
    if |rest| > CAP {
      forall i: nat | i >= over ensures IsCharBoundary(bytes, i) <==> IsCharBoundary(rest, i - |head|) {
        assert i > |head|;
        assert i < |bytes| ==> bytes[i] == rest[i - |head|];
      }
      forall i | |rest| - CAP <= i < cut - |head| ensures !IsCharBoundary(rest, i) {
        assert !IsCharBoundary(bytes, i + |head|);
      }
      BoundaryIsWindow(text[1..], cut - |head|);
      assert bytes[cut..] == rest[cut - |head|..];
    } else {
      SecondCharIsBoundary(text);
      assert forall i: nat | over <= i < |head| :: bytes[i] == head[i];
      assert cut == |head|;
      assert bytes[cut..] == rest;
    }
  }

  lemma SecondCharIsBoundary(text: string)
    requires text != ""
    ensures IsCharBoundary(Encode(text), |EncodeChar(text[0])|)
  {
    var head, rest := EncodeChar(text[0]), Encode(text[1..]);
    if text[1..] != "" {
      assert Encode(text)[|head|] == rest[0] == EncodeChar(text[1..][0])[0];
    } else {
      assert |Encode(text)| == |head|;
    }
  }

  lemma CallExtendsLog(calls: seq<Say>, say: Say)
    ensures FullLog(calls + [say]) == FullLog(calls) + Entry(LastSpeaker(calls), say)
    ensures LastSpeaker(calls + [say]) == say.speaker
    ensures Window(Window(FullLog(calls)) + Entry(LastSpeaker(calls), say)) == Window(FullLog(calls + [say]))
  {
    assert (calls + [say])[..|calls|] == calls;
    WindowAbsorbs(FullLog(calls), Entry(LastSpeaker(calls), say));
  }

  lemma EntryEncodes(kept: string, last: char, say: Say)
    ensures Encode(kept + Entry(last, say)) ==
              (if last == say.speaker then Encode(kept) else Encode(kept) + Encode(Tag(say.speaker))) + Encode(say.text)
  {
    var tag := Tag(say.speaker);
    EncodeAppend(kept, Entry(last, say));
    if last == say.speaker {
      assert "" + say.text == say.text;
    } else {
      EncodeAppend(tag, say.text);
      assert Encode(kept) + (Encode(tag) + Encode(say.text)) == (Encode(kept) + Encode(tag)) + Encode(say.text);
    }
  }

  /** A new voice is tagged, "owner" for the user and "amos" for anyone else; the same voice goes on untagged. */
  lemma VoicesAreTagged(calls: seq<Say>, speaker: char, text: string)
    ensures var log, more := FullLog(calls), FullLog(calls + [Say(speaker, text)]);
            if speaker == (if calls == [] then ' ' else calls[|calls| - 1].speaker) then more == log + text
            else more == log + ((if speaker == 'u' then "\n[owner]: " else "\n[amos]: ") + text)
  {
    assert (calls + [Say(speaker, text)])[..|calls|] == calls;
    assert "" + text == text;
  }

  // ----- The shared buffer -----

  /** Where to cut an overlong buffer: from the overflow on, the first character boundary. */
  method CutPoint(bytes: seq<Byte>, ghost text: string) returns (cut: nat)
    requires |bytes| > CAP && bytes == Encode(text)
    ensures |bytes| - CAP <= cut <= |bytes| && IsCharBoundary(bytes, cut)
    ensures forall i | |bytes| - CAP <= i < cut :: !IsCharBoundary(bytes, i)
    ensures bytes[cut..] == Encode(Window(text))
  {
    cut := |bytes| - CAP;
    while !IsCharBoundary(bytes, cut)
      invariant |bytes| - CAP <= cut <= |bytes|
      invariant forall i | |bytes| - CAP <= i < cut :: !IsCharBoundary(bytes, i)
      decreases |bytes| - cut
    {
      cut := cut + 1;
    }
    BoundaryIsWindow(text, cut);
  }

  /** The buffer and the last speaker, which a mutex guards; `calls` is every call so far. */
  class Rolling {
    var buffer: seq<Byte>
    var speaker: char
    ghost var calls: seq<Say>

    /** The trimmed buffer is the one-shot answer. */
    ghost predicate Valid()
      reads this
    {
      speaker == LastSpeaker(calls) && buffer == Encode(Window(FullLog(calls)))
    }

    constructor ()
      ensures Valid() && calls == []
    {
      buffer, speaker, calls := [], ' ', [];
    }

    /** `scribe`: one critical section, so any interleaving of the two tasks is a sequence of calls. */
    method Scribe(speaker: char, text: string)
      requires Valid()
      modifies this
      ensures Valid() && calls == old(calls) + [Say(speaker, text)]
      ensures |buffer| <= 30_000
    {
      ghost var say, last := Say(speaker, text), LastSpeaker(calls);
      ghost var kept := Window(FullLog(calls));
      EntryEncodes(kept, last, say);
      CallExtendsLog(calls, say);
      WindowFits(kept + Entry(last, say));
      ghost var log := kept + Entry(last, say);
      if this.speaker != speaker {
        buffer := buffer + Encode(Tag(speaker));
        this.speaker := speaker;
      }
      buffer := buffer + Encode(text);
      assert buffer == Encode(log);
      if |buffer| > CAP {
        var cut := CutPoint(buffer, log);
        buffer := buffer[cut..];
      }
      calls := calls + [say];
    }
  }

  function Overflow(bytes: seq<Byte>): nat {
    if |bytes| > CAP then |bytes| - CAP else 0
  }

  /** However the calls fall, what Valid() keeps is the full log from its first
      character boundary at or after the overflow: the end of the log to the last
      character, with at most three bytes below the cap lost. */
  lemma KeptFromFirstBoundary(calls: seq<Say>, cut: nat)
    requires var bytes := Encode(FullLog(calls));
             && Overflow(bytes) <= cut <= |bytes| && IsCharBoundary(bytes, cut)
             && forall i | Overflow(bytes) <= i < cut :: !IsCharBoundary(bytes, i)
    ensures var bytes := Encode(FullLog(calls));
            && bytes[cut..] == Encode(Window(FullLog(calls)))
            && cut <= Overflow(bytes) + 3
  {
    var log := FullLog(calls);
    WindowFits(log);
    if |Encode(log)| > CAP {
      BoundaryIsWindow(log, cut);
    } else {
      assert IsCharBoundary(Encode(log), 0);
    }
  }
}
