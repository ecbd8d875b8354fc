/** What the codec guarantees: the shape of the chunks decrypt works on, the
    round trip, and the ways encrypt and decrypt fail. */
module CodecProperties {
  import opened Common
  import opened Languages
  import opened Codec

  /** One chunk per even index: ceil(|m| / 2) chunks, each of two characters
      except a last one of one character when the message has odd length. */
  lemma ChunksShape(m: string)
    ensures |Chunks(m)| == (|m| + 1) / 2
    ensures forall k :: 0 <= k < |Chunks(m)| ==>
              |Chunks(m)[k]| == if 2 * k + 2 <= |m| then 2 else 1
    ensures |m| % 2 == 1 ==> |Chunks(m)[|Chunks(m)| - 1]| == 1
  {
  }

  /** A two-character prefix is cut off as one chunk. */
  lemma ChunksOfToken(t: string, rest: string)
    requires |t| == 2
    ensures Chunks(t + rest) == [t] + Chunks(rest)
  {
    var m := t + rest;
    assert m[0..2] == t;
    forall k | 1 <= k < |Chunks(m)|
      ensures Chunks(m)[k] == Chunks(rest)[k - 1]
    {
      var hi := if 2 * k + 2 <= |m| then 2 * k + 2 else |m|;
      assert m[2 * k .. hi] == rest[2 * (k - 1) .. hi - 2];
    }
  }

  /** The chunks put back together are the message. */
  lemma {:induction false} ChunksJoin(m: string)
    ensures Join(Chunks(m)) == m
    decreases |m|
  {
    if |m| <= 2 {
      if m != [] {
        assert |Chunks(m)| == 1 && Chunks(m)[0] == m[0..|m|] == m;
        assert Chunks(m) == [m];
        assert Join([m]) == m + Join([]);
      }
    } else {
      var t := m[..2];
      assert m == t + m[2..];
      ChunksOfToken(t, m[2..]);
      ChunksJoin(m[2..]);
      assert ([t] + Chunks(m[2..]))[1..] == Chunks(m[2..]);
    }
  }

  /** Encrypting a non-empty message emits the token of its first character
      followed by the encryption of the rest. */
  lemma EncryptFirst(e: Encrypt, s: string)
    requires s != [] && e.Encrypt(s).Ok?
    ensures FirstIndex(KeysOf(e.language), s[0]).Some?
    ensures e.Encrypt(s[1..]).Ok?
    ensures e.Encrypt(s).value
         == e.language[FirstIndex(KeysOf(e.language), s[0]).value].1 + e.Encrypt(s[1..]).value
  {
  }

  /** Round trip: under a language whose values all have two characters and
      are pairwise distinct, decrypting the encryption of a message over its
      keys gives the message back. */
  lemma {:induction false} RoundTrip(e: Encrypt, s: string)
    requires Invertible(e.language)
    requires forall k :: 0 <= k < |s| ==> s[k] in KeysOf(e.language)
    ensures e.Encrypt(s).Ok?
    ensures Decoded(e.language, Chunks(e.Encrypt(s).value)) == Ok(s)
    decreases |s|
  {
    if s == [] {
      assert Chunks([]) == [];
    } else {
      EncryptFirst(e, s);
      var i := FirstIndex(KeysOf(e.language), s[0]).value;
      var t := e.language[i].1;
      var rest := e.Encrypt(s[1..]).value;
      assert forall k :: 0 <= k < |s[1..]| ==> s[1..][k] == s[k + 1];
      RoundTrip(e, s[1..]);
      ChunksOfToken(t, rest);
      assert ValuesOf(e.language)[i] == t;
      FirstIndexOfDistinct(ValuesOf(e.language), i);
      var chunks := [t] + Chunks(rest);
      assert chunks[0] == t && chunks[1..] == Chunks(rest);
      assert [s[0]] + s[1..] == s;
    }
  }

  /** Two codecs sharing one language understand each other. */
  lemma SharedLanguage(a: Encrypt, b: Encrypt, s: string)
    requires a.language == b.language && Invertible(a.language)
    requires forall k :: 0 <= k < |s| ==> s[k] in KeysOf(a.language)
    ensures a.Encrypt(s).Ok?
    ensures Decoded(b.language, Chunks(a.Encrypt(s).value)) == Ok(s)
  {
    RoundTrip(a, s);
  }

  /** Under a language whose values all have two characters, a message of odd
      length is always rejected: its last chunk has one character. */
  lemma OddLengthRejected(lang: Language, m: string)
    requires forall i :: 0 <= i < |lang| ==> |lang[i].1| == 2
    requires |m| % 2 == 1
    ensures Decoded(lang, Chunks(m)) == Err(ValueError(NotOnList))
  {
    ChunksShape(m);
    var last := |Chunks(m)| - 1;
    assert Chunks(m)[last] !in ValuesOf(lang);
  }

  /** The euro sign is not in the alphabet, so a codec with the default keys
      raises KeyError on it. */
  lemma UnknownCharacterRejected(e: Encrypt)
    requires KeysOf(e.language) == DefaultKeys + ['\n']
    ensures e.Encrypt("€") == Err(KeyError('€'))
  {
    ForeignOutsideAlphabet('€');
    DefaultKeysAreAlphabet();
    assert "€"[0] !in KeysOf(e.language);
  }

  /** A supplied language is not validated: when the key of entry `j` shares
      its value with an earlier entry, encrypting that key gives the value,
      but decrypt turns the value into the earlier entry's key, so the round
      trip fails for it. */
  lemma FirstKeyWins(e: Encrypt, j: nat)
    requires DistinctKeys(e.language) && j < |e.language| && |e.language[j].1| == 2
    requires exists i :: 0 <= i < j && e.language[i].1 == e.language[j].1
    ensures e.Encrypt([e.language[j].0]) == Ok(e.language[j].1)
    ensures Decoded(e.language, Chunks(e.language[j].1)).Ok?
    ensures Decoded(e.language, Chunks(e.language[j].1)) != Ok([e.language[j].0])
  {
    var lang := e.language;
    var c, t := lang[j].0, lang[j].1;
    FirstIndexOfDistinct(KeysOf(lang), j);
    assert [c][1..] == [] && e.Encrypt([]) == Ok([]);
    assert t + [] == t;
    ChunksOfToken(t, []);
    assert Chunks([]) == [];
    assert Chunks(t) == [t];
    assert ValuesOf(lang)[j] == t;
    var first := FirstIndex(ValuesOf(lang), t).value;
    var i :| 0 <= i < j && lang[i].1 == t;
    assert ValuesOf(lang)[i] == t;
    assert first <= i;
    assert KeysOf(lang)[first] != KeysOf(lang)[j];
  }
}
