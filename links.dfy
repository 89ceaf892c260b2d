/** Turning one match of the link pattern into a link record: the body of
    AdvancedRASDownloader.extract_links_from_text once re.findall has
    produced its (subject, description, url) triples. */
module Links {
  import opened Text

  datatype FileType = Pdf | Mp4 | File

  /** The extension written after the last '.' of a record's filename. */
  function Extension(t: FileType): string {
    match t
    case Pdf => "pdf"
    case Mp4 => "mp4"
    case File => "file"
  }

  /** The file type an extension names, if any. */
  function TypeOfExtension(e: string): (t: Option<FileType>)
    ensures forall u :: t == Some(u) <==> Extension(u) == e
  {
    if e == "pdf" then Some(Pdf)
    else if e == "mp4" then Some(Mp4)
    else if e == "file" then Some(File)
    else None
  }

  datatype Option<T> = None | Some(value: T)

  /** The three groups of one match, unstripped: the text inside the
      parentheses, the description after them, and the https URL. */
  datatype Match = Match(subject: string, description: string, url: string)

  /** The fields of a link record that never change after construction. */
  datatype LinkInfo = LinkInfo(id: int, subject: string, description: string, url: string,
                               filename: string, ftype: FileType)

  /** The URL mentions `w`, ignoring case. */
  ghost predicate Mentions(url: string, w: string) {
    exists i :: OccursAtIgnoringCase(url, w, i)
  }

  /** The type test on the lower-cased URL: ".pdf" wins over ".mp4" and
      "video"; anything else is a plain file. */
  function Classify(url: string): (t: FileType)
    ensures t == Pdf <==> Mentions(url, ".pdf")
    ensures t == Mp4 <==> !Mentions(url, ".pdf") && (Mentions(url, ".mp4") || Mentions(url, "video"))
    ensures t == File <==> !Mentions(url, ".pdf") && !Mentions(url, ".mp4") && !Mentions(url, "video")
  {
    ContainsLower(url, ".pdf");
    ContainsLower(url, ".mp4");
    ContainsLower(url, "video");
    var u := Lower(url);
    if Contains(u, ".pdf") then Pdf
    else if Contains(u, ".mp4") || Contains(u, "video") then Mp4
    else File
  }

  /** A character the pattern `[^\w\s-]` leaves in place, with `isWord`
      standing for the Unicode-aware class `\w`. */
  predicate Safe(c: char, isWord: char -> bool) {
    isWord(c) || IsSpace(c) || c == '-'
  }

  predicate AllSafe(s: string, isWord: char -> bool) {
    forall i :: 0 <= i < |s| ==> Safe(s[i], isWord)
  }

  /** re.sub(r'[^\w\s-]', '', s): every character that is not a word
      character, whitespace or '-' is deleted. */
  function KeepSafe(s: string, isWord: char -> bool): (r: string)
    ensures AllSafe(r, isWord)
    ensures |r| <= |s|
  {
    if s == [] then []
    else (if Safe(s[0], isWord) then [s[0]] else []) + KeepSafe(s[1..], isWord)
  }

  /** Deleting characters commutes with concatenation. */
  lemma {:induction false} KeepSafeAppend(a: string, b: string, isWord: char -> bool)
    ensures KeepSafe(a + b, isWord) == KeepSafe(a, isWord) + KeepSafe(b, isWord)
  {
    if a != [] {
      assert (a + b)[0] == a[0] && (a + b)[1..] == a[1..] + b;
      KeepSafeAppend(a[1..], b, isWord);
    } else {
      assert a + b == b;
    }
  }

  /** KeepSafe changes a string exactly when it holds an unsafe character. */
  lemma {:induction false} KeepSafeFixed(s: string, isWord: char -> bool)
    ensures KeepSafe(s, isWord) == s <==> AllSafe(s, isWord)
  {
    if s != [] {
      KeepSafeFixed(s[1..], isWord);
      var k := KeepSafe(s, isWord);
      if !Safe(s[0], isWord) {
        assert |k| < |s|;
      } else {
        assert k == [s[0]] + KeepSafe(s[1..], isWord);
        if k == s {
          assert KeepSafe(s[1..], isWord) == k[1..] == s[1..];
        }
        if AllSafe(s, isWord) {
          assert AllSafe(s[1..], isWord);
        }
      }
    }
  }

  /** re.sub(r'\s+', '_', s): every maximal run of whitespace becomes a
      single '_'. */
  function JoinWords(s: string): (r: string)
    ensures NoSpace(r)
    ensures |r| <= |s|
  {
    JoinFrom(s, false)
  }

  /** The substitution scanning `s` from left to right; `inRun` says that
      the character before `s` was whitespace, whose run has already been
      replaced by its '_'. */
  function JoinFrom(s: string, inRun: bool): (r: string)
    ensures NoSpace(r)
    ensures |r| <= |s|
  {
    if s == [] then [] else Emit(s[0], inRun) + JoinFrom(s[1..], IsSpace(s[0]))
  }

  /** What the scan writes for one character: the character itself when it
      is not whitespace, '_' for the first whitespace of a run, nothing for
      the rest of the run. */
  function Emit(c: char, inRun: bool): (r: string)
    ensures NoSpace(r) && |r| <= 1
  {
    if !IsSpace(c) then [c] else if inRun then [] else "_"
  }

  /** Whether a scan that started with `inRun` is inside a whitespace run
      once it has read `a`. */
  function RunAfter(a: string, inRun: bool): bool {
    if a == [] then inRun else IsSpace(a[|a| - 1])
  }

  /** The scan of `a + b` is the scan of `a` followed by the scan of `b`,
      started in the state `a` left it in. */
  lemma {:induction false} JoinFromAppend(a: string, b: string, inRun: bool)
    ensures JoinFrom(a + b, inRun) == JoinFrom(a, inRun) + JoinFrom(b, RunAfter(a, inRun))
  {
    if a == [] {
      assert a + b == b;
    } else {
      var s := a + b;
      assert s[0] == a[0] && s[1..] == a[1..] + b;
      var next := IsSpace(a[0]);
      JoinFromAppend(a[1..], b, next);
      assert RunAfter(a[1..], next) == RunAfter(a, inRun);
      var e := Emit(a[0], inRun);
      calc {
        JoinFrom(s, inRun);
        e + JoinFrom(a[1..] + b, next);
        e + (JoinFrom(a[1..], next) + JoinFrom(b, RunAfter(a, inRun)));
        (e + JoinFrom(a[1..], next)) + JoinFrom(b, RunAfter(a, inRun));
      }
    }
  }

  /** Text without whitespace is left alone. */
  lemma {:induction false} JoinWordsNoSpace(s: string)
    requires NoSpace(s)
    ensures JoinWords(s) == s
  {
    if s != [] {
      JoinWordsNoSpace(s[1..]);
    }
  }

  /** A run of whitespace becomes exactly one '_'. */
  lemma {:induction false} JoinWordsRun(w: string)
    requires w != [] && AllSpace(w)
    ensures JoinWords(w) == "_"
  {
    RunStaysJoined(w[1..]);
  }

  lemma {:induction false} RunStaysJoined(w: string)
    requires AllSpace(w)
    ensures JoinFrom(w, true) == []
  {
    if w != [] {
      RunStaysJoined(w[1..]);
    }
  }

  /** Cutting a string anywhere but inside a whitespace run commutes with
      JoinWords; together with JoinWordsNoSpace and JoinWordsRun this
      pins JoinWords down on every input. */
  lemma JoinWordsAppend(a: string, b: string)
    requires a == [] || b == [] || !IsSpace(a[|a| - 1]) || !IsSpace(b[0])
    ensures JoinWords(a + b) == JoinWords(a) + JoinWords(b)
  {
    JoinFromAppend(a, b, false);
    if b != [] && !IsSpace(b[0]) {
      assert JoinFrom(b, true) == JoinFrom(b, false);
    }
  }

  /** Every character is '_' or a character of `s` that is not whitespace. */
  predicate FromInput(r: string, s: string) {
    forall k :: 0 <= k < |r| ==> r[k] == '_' || (r[k] in s && !IsSpace(r[k]))
  }

  /** Every character JoinFrom writes is a '_' or a character of its input
      that is not whitespace. */
  lemma {:induction false} JoinFromCopies(s: string, inRun: bool)
    ensures FromInput(JoinFrom(s, inRun), s)
  {
    if s != [] {
      var e := Emit(s[0], inRun);
      var rest := JoinFrom(s[1..], IsSpace(s[0]));
      JoinFromCopies(s[1..], IsSpace(s[0]));
      assert JoinFrom(s, inRun) == e + rest;
      forall k | 0 <= k < |e + rest|
        ensures (e + rest)[k] == '_' || ((e + rest)[k] in s && !IsSpace((e + rest)[k]))
      {
        if k < |e| {
          assert (e + rest)[k] == e[k];
        } else {
          var c := rest[k - |e|];
          assert (e + rest)[k] == c;
          assert c in s[1..] ==> c in s;
        }
      }
    }
  }

  /** Given input of word characters, whitespace and '-', every character
      JoinFrom writes is '_', a word character or '-'. */
  lemma {:induction false} JoinFromKeeps(s: string, inRun: bool, isWord: char -> bool)
    requires AllSafe(s, isWord)
    ensures JoinedSafe(JoinFrom(s, inRun), isWord)
  {
    if s != [] {
      assert Safe(s[0], isWord) && AllSafe(s[1..], isWord);
      JoinFromKeeps(s[1..], IsSpace(s[0]), isWord);
      var rest := JoinFrom(s[1..], IsSpace(s[0]));
      if !IsSpace(s[0]) {
        JoinedSafePrepend(s[0], rest, isWord);
      } else if !inRun {
        JoinedSafePrepend('_', rest, isWord);
      }
    }
  }

  /** Every character is '_', a word character or '-'. */
  predicate JoinedSafe(r: string, isWord: char -> bool) {
    forall k :: 0 <= k < |r| ==> r[k] == '_' || isWord(r[k]) || r[k] == '-'
  }

  lemma JoinedSafePrepend(c: char, r: string, isWord: char -> bool)
    requires c == '_' || isWord(c) || c == '-'
    requires JoinedSafe(r, isWord)
    ensures JoinedSafe([c] + r, isWord)
  {
    forall k | 0 <= k < |[c] + r| ensures ([c] + r)[k] == '_' || isWord(([c] + r)[k]) || ([c] + r)[k] == '-' {
      if k > 0 { assert ([c] + r)[k] == r[k - 1]; }
    }
  }

  /** f"{id:03d}_{safe_subject}_{safe_description}.{file_type}". */
  function Filename(id: nat, safeSubject: string, safeDescription: string, t: FileType): string {
    ZeroPad(id, 3) + "_" + safeSubject + "_" + safeDescription + "." + Extension(t)
  }

  /** The record built for the match at (zero-based) position `i`: it is
      numbered from one, keeps the three groups with no whitespace left at
      either end, and takes its type from the stripped URL. */
  function RecordFor(i: nat, m: Match, isWord: char -> bool): (r: LinkInfo)
    ensures r.id == i + 1
    ensures r.subject == Strip(m.subject) && r.description == Strip(m.description) && r.url == Strip(m.url)
    ensures NoEdgeSpace(r.subject) && NoEdgeSpace(r.description) && NoEdgeSpace(r.url)
    ensures r.ftype == Classify(r.url)
  {
    var subject := Strip(m.subject);
    var description := Strip(m.description);
    var url := Strip(m.url);
    var t := Classify(url);
    var safeSubject := KeepSafe(subject, isWord);
    var safeDescription := JoinWords(KeepSafe(description, isWord));
    LinkInfo(i + 1, subject, description, url, Filename(i + 1, safeSubject, safeDescription, t), t)
  }

  lemma {:induction false} LeadingDigitsOf(d: string, rest: string)
    requires AllDigits(d) && rest != [] && !IsDigit(rest[0])
    ensures LeadingDigits(d + rest) == d
  {
    if d != [] {
      assert (d + rest)[1..] == d[1..] + rest;
      LeadingDigitsOf(d[1..], rest);
    } else {
      assert d + rest == rest;
    }
  }

  lemma AfterLastOf(x: string, c: char, e: string)
    requires c !in e
    ensures AfterLast(x + [c] + e, c) == e
  {
    var s := x + [c] + e;
    assert s[|s| - |e|..] == e;
    assert s[|s| - |e| - 1] == c;
  }

  /** A filename gives back the number it starts with (its leading digits)
      and the type it ends with (the text after its last '.'). */
  lemma FilenameRoundTrip(id: nat, safeSubject: string, safeDescription: string, t: FileType)
    ensures ValueOf(LeadingDigits(Filename(id, safeSubject, safeDescription, t))) == id
    ensures TypeOfExtension(AfterLast(Filename(id, safeSubject, safeDescription, t), '.')) == Some(t)
  {
    var pad := ZeroPad(id, 3);
    var rest := "_" + safeSubject + "_" + safeDescription + "." + Extension(t);
    var middle := "_" + safeSubject + "_" + safeDescription;
    assert pad + middle + "." + Extension(t) == (pad + middle) + ['.'] + Extension(t);
    assert Filename(id, safeSubject, safeDescription, t) == pad + rest;
    LeadingDigitsOf(pad, rest);
    ZeroPadRoundTrip(id, 3);
    AfterLastOf(pad + "_" + safeSubject + "_" + safeDescription, '.', Extension(t));
  }

  /** The record keeps the stripped groups, numbers itself from one, and
      its filename gives back both the number (its leading digits) and the
      type (the text after its last '.'). The two sanitised parts hold only
      word characters, whitespace and '-', and the description part has no
      whitespace, its runs having become '_'. */
  lemma RecordForFilename(i: nat, m: Match, isWord: char -> bool)
    ensures var r := RecordFor(i, m, isWord);
      && r.id == i + 1
      && ValueOf(LeadingDigits(r.filename)) == r.id
      && TypeOfExtension(AfterLast(r.filename, '.')) == Some(r.ftype)
      && r.ftype == Classify(r.url)
      && r.subject == Strip(m.subject) && r.description == Strip(m.description) && r.url == Strip(m.url)
  {
    var r := RecordFor(i, m, isWord);
    var safeSubject := KeepSafe(r.subject, isWord);
    var safeDescription := JoinWords(KeepSafe(r.description, isWord));
    assert r.filename == Filename(i + 1, safeSubject, safeDescription, r.ftype);
    FilenameRoundTrip(i + 1, safeSubject, safeDescription, r.ftype);
  }

  /** Both sanitised parts of a filename keep only the characters the
      patterns allow: the subject part word characters, whitespace and '-';
      the description part the same without whitespace, plus '_'. */
  lemma SanitisedParts(subject: string, description: string, isWord: char -> bool)
    ensures AllSafe(KeepSafe(subject, isWord), isWord)
    ensures NoSpace(JoinWords(KeepSafe(description, isWord)))
    ensures JoinedSafe(JoinWords(KeepSafe(description, isWord)), isWord)
  {
    JoinFromKeeps(KeepSafe(description, isWord), false, isWord);
  }
}
