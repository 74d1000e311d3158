/**
 * Machine translation as the forms use it. The services themselves (MyMemory,
 * Google Translate) are parameters: a `Service` maps a text, a source code and
 * a target code to a reply, which may be a failure (the request or the JSON
 * parsing threw). What is modelled is what the forms do around a call: split
 * the text into 500-character chunks, fall back to the input when a reply is
 * empty, and fall back again when a call fails.
 */
module Translation {
  import opened Base

  /** One reply of a translation service; `Translated("")` is a reply with no translated text. */
  datatype Reply = Translated(text: string) | Failed

  /** A translation service: text, source language code, target language code. */
  type Service = (string, string, string) -> Reply

  // ----- chunkString -----

  /** The chunks `chunkString(s, size)` returns: consecutive slices of `size` characters, the last one possibly shorter. */
  function Chunks(s: string, size: nat): (r: seq<string>)
    requires size > 0
    decreases |s|
  {
    if s == [] then []
    else if |s| <= size then [s]
    else [s[..size]] + Chunks(s[size..], size)
  }

  /** The chunks joined back together. */
  function Concat(cs: seq<string>): string
  {
    if cs == [] then "" else cs[0] + Concat(cs[1..])
  }

  lemma {:induction false} ConcatAppend(a: seq<string>, b: seq<string>)
    ensures Concat(a + b) == Concat(a) + Concat(b)
  {
    if a != [] {
      ConcatAppend(a[1..], b);
      assert (a + b)[1..] == a[1..] + b;
    } else {
      assert a + b == b;
    }
  }

  /** Joining the chunks gives back the string. */
  lemma {:induction false} ChunksConcat(s: string, size: nat)
    requires size > 0
    ensures Concat(Chunks(s, size)) == s
    decreases |s|
  {
    if |s| > size {
      ChunksConcat(s[size..], size);
      assert s == s[..size] + s[size..];
    }
  }

  /**
   * Every chunk is non-empty and at most `size` long, every chunk but the
   * last is exactly `size` long, and "" gives no chunk at all.
   */
  lemma {:induction false} ChunkSizes(s: string, size: nat)
    requires size > 0
    ensures var cs := Chunks(s, size);
      && (s == [] <==> cs == [])
      && (forall i | 0 <= i < |cs| :: 0 < |cs[i]| <= size)
      && (forall i | 0 <= i < |cs| - 1 :: |cs[i]| == size)
    decreases |s|
  {
    if |s| > size {
      ChunkSizes(s[size..], size);
      var rest := Chunks(s[size..], size);
      assert Chunks(s, size) == [s[..size]] + rest;
      assert forall i | 1 <= i < |rest| + 1 :: Chunks(s, size)[i] == rest[i - 1];
    }
  }

  /** One step of the loop: the chunk starting at `i` and what follows it. */
  lemma ChunksFrom(s: string, size: nat, i: nat)
    requires size > 0 && i < |s|
    ensures Chunks(s[i..], size) == [s[i..Min(i + size, |s|)]] + Chunks(s[Min(i + size, |s|)..], size)
  {
    if i + size < |s| {
      assert s[i..][size..] == s[i + size..];
      assert s[i..][..size] == s[i..i + size];
    } else {
      assert s[i..Min(i + size, |s|)] == s[i..];
      assert s[Min(i + size, |s|)..] == [];
    }
  }

  function Min(a: int, b: int): int
  {
    if a < b then a else b
  }

  /** `chunkString(str, size)`: the `while (i < str.length)` loop pushing `str.slice(i, i + size)`. */
  method ChunkString(s: string, size: nat) returns (chunks: seq<string>)
    requires size > 0
    ensures chunks == Chunks(s, size)
  {
    chunks := [];
    var i := 0;
    while i < |s|
      invariant 0 <= i && (i <= |s| || i == 0)
      invariant chunks + Chunks(s[Min(i, |s|)..], size) == Chunks(s, size)
      decreases |s| - i
    {
      ChunksFrom(s, size, i);
      chunks := chunks + [s[i..Min(i + size, |s|)]];
      i := i + size;
      if i > |s| {
        i := |s|;
      }
    }
    assert s[Min(i, |s|)..] == [];
  }

  // ----- the MyMemory translateText of the event, tailor-made, news and blog forms -----

  /** `data.responseData.translatedText || chunk`. */
  function OrChunk(r: string, chunk: string): string
  {
    if r == "" then chunk else r
  }

  /** The translations of the chunks joined, or `None` as soon as one call fails. */
  function TranslateChunks(svc: Service, cs: seq<string>, src: string, tgt: string): (r: Option<string>)
    ensures r.None? <==> exists i | 0 <= i < |cs| :: svc(cs[i], src, tgt).Failed?
    decreases |cs|
  {
    if cs == [] then Some("")
    else
      var head := svc(cs[0], src, tgt);
      var tail := TranslateChunks(svc, cs[1..], src, tgt);
      assert forall i | 1 <= i < |cs| :: cs[i] == cs[1..][i - 1];
      if head.Failed? || tail.None? then None
      else Some(OrChunk(head.text, cs[0]) + tail.value)
  }

  /** `translateText(text, source, target)`: the chunk translations joined; on any failure, the whole input. */
  function TranslateText(svc: Service, text: string, src: string, tgt: string): string
  {
    var r := TranslateChunks(svc, Chunks(text, 500), src, tgt);
    if r.None? then text else r.value
  }

  /**
   * A service that never supplies a translation (every reply empty or
   * failed) leaves the text as it was: each empty reply gives back its chunk,
   * and a failure gives back the whole text.
   */
  lemma TranslateTextFallback(svc: Service, text: string, src: string, tgt: string)
    requires forall c :: svc(c, src, tgt) == Translated("") || svc(c, src, tgt) == Failed
    ensures TranslateText(svc, text, src, tgt) == text
  {
    ChunksConcat(text, 500);
    EmptyRepliesGiveChunks(svc, Chunks(text, 500), src, tgt);
  }

  lemma {:induction false} EmptyRepliesGiveChunks(svc: Service, cs: seq<string>, src: string, tgt: string)
    requires forall c :: svc(c, src, tgt) == Translated("") || svc(c, src, tgt) == Failed
    ensures TranslateChunks(svc, cs, src, tgt).Some? ==> TranslateChunks(svc, cs, src, tgt).value == Concat(cs)
    decreases |cs|
  {
    if cs != [] {
      EmptyRepliesGiveChunks(svc, cs[1..], src, tgt);
    }
  }

  /** The `for (const chunk of chunks)` loop of `translateText`, with its `catch`. */
  method TranslateTextLoop(svc: Service, text: string, src: string, tgt: string) returns (result: string)
    ensures result == TranslateText(svc, text, src, tgt)
  {
    var chunks := ChunkString(text, 500);
    var acc := "";
    var i := 0;
    while i < |chunks|
      invariant 0 <= i <= |chunks|
      invariant TranslateChunks(svc, chunks[..i], src, tgt) == Some(acc)
    {
      var reply := svc(chunks[i], src, tgt);
      if reply.Failed? {
        TranslateChunksFailed(svc, chunks, src, tgt, i);
        return text;
      }
      TranslateChunksSnoc(svc, chunks[..i], chunks[i], src, tgt);
      assert chunks[..i + 1] == chunks[..i] + [chunks[i]];
      acc := acc + OrChunk(reply.text, chunks[i]);
      i := i + 1;
    }
    assert chunks[..i] == chunks;
    result := acc;
  }

  lemma TranslateChunksFailed(svc: Service, cs: seq<string>, src: string, tgt: string, i: nat)
    requires i < |cs| && svc(cs[i], src, tgt).Failed?
    ensures TranslateChunks(svc, cs, src, tgt).None?
  {
  }

  lemma {:induction false} TranslateChunksSnoc(svc: Service, cs: seq<string>, c: string, src: string, tgt: string)
    requires TranslateChunks(svc, cs, src, tgt).Some? && svc(c, src, tgt).Translated?
    ensures TranslateChunks(svc, cs + [c], src, tgt) ==
      Some(TranslateChunks(svc, cs, src, tgt).value + OrChunk(svc(c, src, tgt).text, c))
    decreases |cs|
  {
    if cs == [] {
      assert [c][1..] == [];
      var x := OrChunk(svc(c, src, tgt).text, c);
      assert x + "" == x && "" + x == x;
    } else {
      assert (cs + [c])[1..] == cs[1..] + [c];
      assert (cs + [c])[0] == cs[0];
      TranslateChunksSnoc(svc, cs[1..], c, src, tgt);
      var h := OrChunk(svc(cs[0], src, tgt).text, cs[0]);
      var t := TranslateChunks(svc, cs[1..], src, tgt).value;
      assert h + t + OrChunk(svc(c, src, tgt).text, c) == h + (t + OrChunk(svc(c, src, tgt).text, c));
    }
  }

  // ----- the other translateText variants -----

  /** The clients form's `translateText`: one call, no chunks; `translatedText || text`, the input on a failure. */
  function TranslateWhole(svc: Service, text: string, src: string, tgt: string): (r: string)
    ensures svc(text, src, tgt).Failed? ==> r == text
    ensures svc(text, src, tgt) == Translated("") ==> r == text
    ensures svc(text, src, tgt).Translated? && svc(text, src, tgt).text != "" ==> r == svc(text, src, tgt).text
  {
    match svc(text, src, tgt)
    case Failed => text
    case Translated(t) => OrChunk(t, text)
  }

  /** The blog form's `translateText` (useTranslation): a blank text is returned as it is, without a call. */
  function TranslateNonBlank(svc: Service, text: string, src: string, tgt: string): (r: string)
    ensures IsBlank(text) ==> r == text
    ensures !IsBlank(text) ==> r == TranslateText(svc, text, src, tgt)
  {
    if IsBlank(text) then text else TranslateText(svc, text, src, tgt)
  }

  /**
   * Google Translate as the blog hook calls it: a text and a target code.
   * `translateTextWithGoogle` gives back a blank text unchanged, the
   * translation (or the text when it is empty) on success, and throws on a
   * failure; `None` stands for the throw.
   */
  type Google = (string, string) -> Reply

  function GoogleText(g: Google, text: string, tgt: string): (r: Option<string>)
    ensures r.None? <==> !IsBlank(text) && g(text, tgt).Failed?
    ensures IsBlank(text) ==> r == Some(text)
  {
    if IsBlank(text) then Some(text)
    else match g(text, tgt)
      case Failed => None
      case Translated(t) => Some(OrChunk(t, text))
  }

  /** `translateField`: a thrown failure becomes "". */
  function GoogleField(g: Google, text: string, tgt: string): (r: string)
    ensures GoogleText(g, text, tgt).None? ==> r == ""
    ensures GoogleText(g, text, tgt).Some? ==> r == GoogleText(g, text, tgt).value
  {
    GoogleText(g, text, tgt).GetOr("")
  }

  /** What `translateTags` pushes for one non-blank tag: its translation, or the tag itself on a failure. */
  function GoogleTag(g: Google, tag: string, tgt: string): (r: string)
    ensures GoogleText(g, tag, tgt).None? ==> r == tag
    ensures GoogleText(g, tag, tgt).Some? ==> r == GoogleText(g, tag, tgt).value
  {
    GoogleText(g, tag, tgt).GetOr(tag)
  }

  const Placeholder: string := "your_google_translate_api_key_here"

  /** `validateApiKey`: a missing or empty key, or the placeholder, is no key. */
  function ValidateApiKey(key: Option<string>): (r: Option<string>)
    ensures r.Some? <==> key.Some? && key.value != "" && key.value != Placeholder
    ensures r.Some? ==> r == key
  {
    if key.None? || key.value == "" || key.value == Placeholder then None else key
  }
}
