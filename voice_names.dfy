/**
 * Voice names such as `en-US-Chirp3-HD-Charon`: splitting on `-` (with the
 * semantics of Python's `str.split("-")`), joining with `-`, and
 * `parse_voice_name`, which takes the first three parts as language,
 * country and audio type and rejoins the rest as the short name.
 */
module VoiceNames {
  import opened Wrappers

  /** The components of a voice name. */
  datatype ParsedVoice = ParsedVoice(language: string, country: string, audioType: string, name: string)

  /** Number of separators in `s`. */
  function CountSep(s: string): nat
  {
    if s == [] then 0 else (if s[0] == '-' then 1 else 0) + CountSep(s[1..])
  }

  /**
   * `s.split("-")`: the maximal separator-free pieces between separators,
   * empty pieces included, so there is always one more piece than
   * separators.
   */
  function Split(s: string): (parts: seq<string>)
    ensures |parts| == CountSep(s) + 1
    ensures forall i :: 0 <= i < |parts| ==> '-' !in parts[i]
    decreases |s|
  {
    if s == [] then [""]
    else
      var rest := Split(s[1..]);
      if s[0] == '-' then [""] + rest
      else [[s[0]] + rest[0]] + rest[1..]
  }

  /** Separators of a concatenation are those of its halves. */
  lemma {:induction false} CountSepAppend(a: string, b: string)
    ensures CountSep(a + b) == CountSep(a) + CountSep(b)
    decreases |a|
  {
    if a != [] {
      assert (a + b)[0] == a[0] && (a + b)[1..] == a[1..] + b;
      CountSepAppend(a[1..], b);
    } else {
      assert a + b == b;
    }
  }

  /** A string without separators counts none. */
  lemma {:induction false} CountSepNone(s: string)
    ensures '-' !in s ==> CountSep(s) == 0
    decreases |s|
  {
    if s != [] && '-' !in s {
      assert s[0] in s;
      assert forall c :: c in s[1..] ==> c in s;
      CountSepNone(s[1..]);
    }
  }

  /**
   * `"-".join(parts)`: the pieces in order with one separator between
   * neighbours, so a join of separator-free pieces holds exactly one
   * separator fewer than it has pieces.
   */
  function Join(parts: seq<string>): (r: string)
    ensures |parts| >= 1 ==> parts[0] <= r
    ensures (forall i :: 0 <= i < |parts| ==> '-' !in parts[i]) ==>
      CountSep(r) == if parts == [] then 0 else |parts| - 1
  {
    if |parts| == 0 then ""
    else if |parts| == 1 then
      CountSepNone(parts[0]);
      parts[0]
    else
      var tail := Join(parts[1..]);
      CountSepNone(parts[0]);
      CountSepAppend(parts[0], "-" + tail);
      CountSepAppend("-", tail);
      assert forall i :: 0 <= i < |parts[1..]| ==> parts[1..][i] == parts[i + 1];
      assert parts[0] + "-" + tail == parts[0] + ("-" + tail);
      parts[0] + "-" + tail
  }

  /** Joining the pieces of a split gives the string back. */
  lemma {:induction false} JoinSplit(s: string)
    ensures Join(Split(s)) == s
    decreases |s|
  {
    if s != [] {
      var rest := Split(s[1..]);
      JoinSplit(s[1..]);
      if s[0] == '-' {
        assert Split(s) == [""] + rest;
        assert ([""] + rest)[1..] == rest;
        assert Join(Split(s)) == "" + "-" + Join(rest);
        assert s == [s[0]] + s[1..];
      } else {
        var parts := [[s[0]] + rest[0]] + rest[1..];
        assert Split(s) == parts;
        if |rest| == 1 {
          assert Join(parts) == [s[0]] + rest[0];
          assert Join(rest) == rest[0];
        } else {
          assert parts[1..] == rest[1..];
          assert Join(parts) == [s[0]] + rest[0] + "-" + Join(rest[1..]);
          assert Join(rest) == rest[0] + "-" + Join(rest[1..]);
        }
        assert s == [s[0]] + s[1..];
      }
    }
  }

  /** A separator-free prefix glues onto the first piece. */
  lemma {:induction false} SplitPrefix(a: string, s: string)
    requires '-' !in a
    ensures Split(a + s) == [a + Split(s)[0]] + Split(s)[1..]
    decreases |a|
  {
    if a != [] {
      assert (a + s)[1..] == a[1..] + s;
      assert (a + s)[0] == a[0];
      assert a[0] in a;
      SplitPrefix(a[1..], s);
      var rest := Split(a[1..] + s);
      assert Split(a + s) == [[a[0]] + rest[0]] + rest[1..];
      assert rest[0] == a[1..] + Split(s)[0];
      assert rest[1..] == Split(s)[1..];
      assert a == [a[0]] + a[1..];
      assert [a[0]] + rest[0] == a + Split(s)[0];
    } else {
      assert a + s == s && a + Split(s)[0] == Split(s)[0];
    }
  }

  /** Splitting a join of separator-free pieces gives the pieces back. */
  lemma {:induction false} SplitJoin(parts: seq<string>)
    requires |parts| >= 1
    requires forall i :: 0 <= i < |parts| ==> '-' !in parts[i]
    ensures Split(Join(parts)) == parts
    decreases |parts|
  {
    if |parts| == 1 {
      SplitPrefix(parts[0], "");
      assert parts[0] + "" == parts[0];
    } else {
      var tail := Join(parts[1..]);
      SplitJoin(parts[1..]);
      assert Join(parts) == parts[0] + ("-" + tail);
      SplitPrefix(parts[0], "-" + tail);
      assert ("-" + tail)[1..] == tail;
      assert Split("-" + tail) == [""] + parts[1..];
      assert parts[0] + "" == parts[0];
    }
  }

  /** `Join` of at least two pieces, written as its first piece and the rest. */
  lemma JoinCons(parts: seq<string>)
    requires |parts| >= 2
    ensures Join(parts) == parts[0] + "-" + Join(parts[1..])
  {
  }

  /**
   * `parse_voice_name`: `None` exactly when the name has fewer than four
   * `-`-separated parts; otherwise the first three parts are the language,
   * country and audio type and the remaining parts, joined with `-`, are the
   * name. Together the last two ensures pin the result down uniquely.
   */
  function ParseVoiceName(voiceName: string): (r: Option<ParsedVoice>)
    ensures r.None? <==> |Split(voiceName)| < 4
    ensures r.None? <==> CountSep(voiceName) < 3
    ensures r.Some? ==> '-' !in r.value.language && '-' !in r.value.country && '-' !in r.value.audioType
    ensures r.Some? ==>
      r.value.language + "-" + r.value.country + "-" + r.value.audioType + "-" + r.value.name == voiceName
  {
    var parts := Split(voiceName);
    if |parts| >= 4 then
      var p := ParsedVoice(parts[0], parts[1], parts[2], Join(parts[3..]));
      JoinSplit(voiceName);
      JoinCons(parts);
      JoinCons(parts[1..]);
      JoinCons(parts[2..]);
      assert parts[1..][1..] == parts[2..];
      assert parts[2..][1..] == parts[3..];
      Some(p)
    else
      None
  }
}
