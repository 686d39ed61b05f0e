/**
 Environment ids: which directory names the catalog accepts, and the id derived
 from a display name. The display name comes as characters already lower-cased.
 */
module EnvironmentIds {
  import opened Sequences

  const MAX_ID_CHARS: nat := 64

  predicate IsLower(c: char)
  {
    'a' <= c <= 'z'
  }

  predicate IsSlugChar(c: char)
  {
    IsLower(c) || '0' <= c <= '9'
  }

  /** `^[a-z][a-z0-9-]*$`, at most 64 characters. */
  predicate IsEnvironmentId(id: string)
  {
    1 <= |id| <= MAX_ID_CHARS && IsLower(id[0]) && forall i :: 0 <= i < |id| ==> IsSlugChar(id[i]) || id[i] == '-'
  }

  /** No separator at the start or twice in a row. */
  predicate IsTidy(slug: string)
  {
    && (slug != "" ==> slug[0] != '-')
    && (forall i :: 0 <= i < |slug| ==> IsSlugChar(slug[i]) || slug[i] == '-')
    && (forall i :: 0 <= i < |slug| - 1 ==> slug[i] != '-' || slug[i + 1] != '-')
  }

  predicate EndsWithDash(slug: string)
  {
    slug != "" && slug[|slug| - 1] == '-'
  }

  /** An id that no derivation would change. */
  predicate IsSlug(id: string)
  {
    IsEnvironmentId(id) && IsTidy(id) && !EndsWithDash(id)
  }

  function Pushed(slug: string, c: char): string
  {
    if IsSlugChar(c) then slug + [c] else if !EndsWithDash(slug) && slug != "" then slug + ['-'] else slug
  }

  function Collected(name: string): string
  {
    if name == "" then "" else Pushed(Collected(name[..|name| - 1]), name[|name| - 1])
  }

  function TrimDashes(slug: string): (trimmed: string)
    ensures trimmed <= slug && !EndsWithDash(trimmed)
    ensures !EndsWithDash(slug) ==> trimmed == slug
  {
    if EndsWithDash(slug) then TrimDashes(slug[..|slug| - 1]) else slug
  }

  function Truncated(id: string): string
  {
    TrimDashes(if |id| <= MAX_ID_CHARS then id else id[..MAX_ID_CHARS])
  }

  const FALLBACK: string := "environment"

  function Derived(name: string): string
  {
    var slug := TrimDashes(Collected(name));
    if slug == "" then FALLBACK
    else
      var id := Truncated(if IsLower(slug[0]) then slug else FALLBACK + "-" + slug);
      if id == "" then FALLBACK else id
  }

  /** The derivation loop over the characters of the name. */
  method DeriveIdBase(name: string) returns (id: string)
    ensures id == Derived(name) && IsSlug(id)
  {
    DerivedIsSlug(name);
    var slug := "";
    for i := 0 to |name|
      invariant slug == Collected(name[..i])
    {
      assert name[..i + 1][..i] == name[..i];
      if IsSlugChar(name[i]) {
        slug := slug + [name[i]];
      } else if !EndsWithDash(slug) && slug != "" {
        slug := slug + ['-'];
      }
    }
    assert name[..|name|] == name;
    slug := TrimDashes(slug);
    if slug == "" {
      return FALLBACK;
    }
    if !IsLower(slug[0]) {
      slug := FALLBACK + "-" + slug;
    }
    slug := Truncated(slug);
    return if slug == "" then FALLBACK else slug;
  }

  lemma {:induction false} CollectedTidy(name: string)
    ensures IsTidy(Collected(name))
  {
    if name != "" {
      CollectedTidy(name[..|name| - 1]);
    }
  }

  lemma FallbackSlug()
    ensures |FALLBACK| == 11 && IsSlug(FALLBACK)
  {}

  lemma PrefixTidy(slug: string, prefix: string)
    requires IsTidy(slug) && prefix <= slug
    ensures IsTidy(prefix)
  {
    assert prefix == slug[..|prefix|];
    assert forall i :: 0 <= i < |prefix| ==> prefix[i] == slug[i];
  }

  lemma TruncatedSlug(id: string)
    requires IsTidy(id) && id != "" && IsLower(id[0])
    ensures IsSlug(Truncated(id))
  {
    var cut := if |id| <= MAX_ID_CHARS then id else id[..MAX_ID_CHARS];
    PrefixTidy(id, cut);
    var trimmed := TrimDashes(cut);
    PrefixTidy(cut, trimmed);
    TrimKeepsLetter(cut);
  }

  lemma {:induction false} TrimKeepsLetter(slug: string)
    requires slug != "" && slug[0] != '-'
    ensures TrimDashes(slug) != "" && TrimDashes(slug)[0] == slug[0]
  {
    if EndsWithDash(slug) {
      TrimKeepsLetter(slug[..|slug| - 1]);
    }
  }

  /** Every derived id is valid, whatever the name. */
  lemma DerivedIsSlug(name: string)
    ensures IsSlug(Derived(name)) && IsEnvironmentId(Derived(name))
  {
    FallbackSlug();
    CollectedTidy(name);
    var slug := TrimDashes(Collected(name));
    PrefixTidy(Collected(name), slug);
    if slug != "" {
      if IsLower(slug[0]) {
        TruncatedSlug(slug);
      } else {
        assert FALLBACK[10] != '-';
        var joined := FALLBACK + "-" + slug;
        assert joined[0] == 'e';
        JoinedTidy(FALLBACK, slug);
        TruncatedSlug(joined);
      }
    }
  }

  lemma JoinedTidy(left: string, right: string)
    requires IsTidy(left) && left != "" && !EndsWithDash(left) && IsTidy(right) && right != ""
    ensures IsTidy(left + "-" + right)
  {
    var joined := left + "-" + right;
    assert forall i :: 0 <= i < |joined| ==>
      joined[i] == if i < |left| then left[i] else if i == |left| then '-' else right[i - |left| - 1];
  }

  lemma {:induction false} CollectedTidyText(slug: string)
    requires IsTidy(slug)
    ensures Collected(slug) == slug
  {
    if slug != "" {
      var init := slug[..|slug| - 1];
      PrefixTidy(slug, init);
      CollectedTidyText(init);
      assert slug == init + [slug[|slug| - 1]];
    }
  }

  lemma SlugIsFixed(slug: string)
    requires IsSlug(slug)
    ensures Derived(slug) == slug
  {
    CollectedTidyText(slug);
  }

  /** Derivation leaves exactly the slugs unchanged, so deriving again changes nothing. */
  lemma DerivationFixes(id: string, name: string)
    ensures Derived(id) == id <==> IsSlug(id)
    ensures Derived(Derived(name)) == Derived(name)
  {
    hide Derived, IsSlug, IsEnvironmentId;
    DerivedIsSlug(id);
    DerivedIsSlug(name);
    if IsSlug(id) {
      SlugIsFixed(id);
    }
    SlugIsFixed(Derived(name));
  }

  // ------------------------------------------------------- what a name becomes

  /** How many slug characters the text begins with. */
  function Run(text: string): (length: nat)
    ensures length <= |text| && (length < |text| ==> !IsSlugChar(text[length]))
    ensures forall i :: 0 <= i < length ==> IsSlugChar(text[i])
  {
    if text != "" && IsSlugChar(text[0]) then 1 + Run(text[1..]) else 0
  }

  /** The longest stretches of slug characters, in order. */
  function Words(text: string): (words: seq<string>)
    ensures forall word :: word in words ==> word != "" && forall k :: 0 <= k < |word| ==> IsSlugChar(word[k])
    decreases |text|
  {
    if text == "" then []
    else if Run(text) == 0 then Words(text[1..])
    else [text[..Run(text)]] + Words(text[Run(text)..])
  }

  /** The derivation loop from any state on. */
  function CollectedFrom(slug: string, text: string): string
    decreases |text|
  {
    if text == "" then slug else CollectedFrom(Pushed(slug, text[0]), text[1..])
  }

  lemma {:induction false} CollectedSplit(head: string, tail: string)
    ensures Collected(head + tail) == CollectedFrom(Collected(head), tail)
    decreases |tail|
  {
    if tail == "" {
      assert head + tail == head;
    } else {
      var longer := head + [tail[0]];
      assert longer[..|longer| - 1] == head && longer + tail[1..] == head + tail;
      CollectedSplit(longer, tail[1..]);
    }
  }

  lemma {:induction false} CollectedRun(slug: string, text: string, n: nat)
    requires n <= |text| && forall i :: 0 <= i < n ==> IsSlugChar(text[i])
    ensures CollectedFrom(slug, text) == CollectedFrom(slug + text[..n], text[n..])
    decreases n
  {
    if n == 0 {
      assert slug + text[..0] == slug && text[0..] == text;
    } else {
      CollectedRun(slug + [text[0]], text[1..], n - 1);
      assert slug + [text[0]] + text[1..][..n - 1] == slug + text[..n] && text[1..][n - 1..] == text[n..];
    }
  }

  /** From the start or behind a dash, the words that follow are appended, joined by dashes. */
  lemma {:induction false} CollectedWords(slug: string, text: string)
    requires slug == "" || EndsWithDash(slug)
    ensures TrimDashes(CollectedFrom(slug, text)) ==
      if Words(text) == [] then TrimDashes(slug) else slug + Join(Words(text), '-')
    decreases |text|
  {
    if text != "" {
      var n := Run(text);
      if n == 0 {
        CollectedWords(slug, text[1..]);
      } else {
        CollectedRun(slug, text, n);
        var word, rest := text[..n], text[n..];
        var after := slug + word;
        assert after[|after| - 1] == text[n - 1] && !EndsWithDash(after);
        if rest != "" {
          assert Pushed(after, rest[0]) == after + ['-'] && EndsWithDash(after + ['-']);
          assert (after + ['-'])[..|after|] == after;
          CollectedWords(after + ['-'], rest[1..]);
          assert Words(rest) == Words(rest[1..]);
          JoinCons(slug, word, Words(rest));
        }
      }
    }
  }

  lemma JoinCons(slug: string, word: string, words: seq<string>)
    ensures words != [] ==> slug + Join([word] + words, '-') == slug + word + ['-'] + Join(words, '-')
  {
    assert ([word] + words)[1..] == words;
  }

  /**
   What a name becomes: its words joined by dashes, behind the fallback if the first
   one does not begin with a letter, cut to the limit and without a dash at the end; a
   name without words becomes the fallback.
   */
  lemma DerivedWords(name: string)
    ensures Words(name) == [] ==> Derived(name) == FALLBACK
    ensures Words(name) != [] ==>
      var joined := Join(Words(name), '-');
      var full := if IsLower(Words(name)[0][0]) then joined else FALLBACK + "-" + joined;
      && Derived(name) <= full
      && |Derived(name)| == if |full| <= MAX_ID_CHARS then |full|
                            else if full[MAX_ID_CHARS - 1] == '-' then MAX_ID_CHARS - 1 else MAX_ID_CHARS
  {
    hide Collected, Truncated, TrimDashes, Join, IsTidy, Words;
    CollectedIsJoin(name);
    if Words(name) != [] {
      var joined := Join(Words(name), '-');
      JoinStarts(Words(name));
      FallbackSlug();
      JoinedTidy(FALLBACK, joined);
      var full := if IsLower(joined[0]) then joined else FALLBACK + "-" + joined;
      TruncatedOnce(full);
    }
  }

  lemma CollectedIsJoin(name: string)
    ensures TrimDashes(Collected(name)) == if Words(name) == [] then "" else Join(Words(name), '-')
    ensures IsTidy(TrimDashes(Collected(name)))
  {
    CollectedSplit("", name);
    assert "" + name == name;
    CollectedWords("", name);
    if Words(name) != [] {
      assert "" + Join(Words(name), '-') == Join(Words(name), '-');
    }
    CollectedTidy(name);
    PrefixTidy(Collected(name), TrimDashes(Collected(name)));
  }

  lemma JoinStarts(words: seq<string>)
    requires words != [] && words[0] != ""
    ensures Join(words, '-') != "" && Join(words, '-')[0] == words[0][0]
  {}

  /** A tidy text loses at most one dash when it is cut. */
  lemma TruncatedOnce(full: string)
    requires IsTidy(full) && full != "" && !EndsWithDash(full)
    ensures var id := Truncated(full);
      && id != "" && id <= full
      && |id| == if |full| <= MAX_ID_CHARS then |full|
                 else if full[MAX_ID_CHARS - 1] == '-' then MAX_ID_CHARS - 1 else MAX_ID_CHARS
  {
    if |full| > MAX_ID_CHARS {
      var cut := full[..MAX_ID_CHARS];
      if EndsWithDash(cut) {
        var shorter := cut[..MAX_ID_CHARS - 1];
        assert shorter[|shorter| - 1] == full[MAX_ID_CHARS - 2];
        assert !EndsWithDash(shorter);
        assert TrimDashes(cut) == TrimDashes(shorter) == shorter;
      }
    }
  }
}
