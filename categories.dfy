/** The category vocabulary `CATEGORY_MAP` and the loop in `search` that
    decides whether a query names a category. */
module Categories {
  import opened Wrappers
  import opened Text

  /** One vocabulary entry: the stored key and its English and isiZulu
      display names. */
  datatype Category = Category(key: string, en: string, zu: string)

  /** `CATEGORY_MAP`, in its insertion (iteration) order. */
  const CategoryMap: seq<Category> := [
    Category("izaga", "proverbs", "izaga"),
    Category("izibongo", "praise poetry", "izibongo"),
    Category("izisho", "idioms", "izisho"),
    Category("philosophy", "philosophy", "ifilosofi"),
    Category("folktale", "folktale", "inganekwane"),
    Category("history", "history", "umlando"),
    Category("other", "other", "okunye")
  ]

  /** `q in [key, info['en'].lower(), info['zu'].lower()]`: whole-string
      equality, the key itself compared as stored. */
  predicate Names(c: Category, q: string) {
    q == c.key || q == Lower(c.en) || q == Lower(c.zu)
  }

  /** The key of the first entry of `cats` that `q` names. */
  function FirstMatch(cats: seq<Category>, q: string): Option<string> {
    if cats == [] then None
    else if Names(cats[0], q) then Some(cats[0].key)
    else FirstMatch(cats[1..], q)
  }

  /** Entry `i` is the first entry of `cats` that `q` names. */
  predicate FirstNamedAt(cats: seq<Category>, q: string, i: int) {
    0 <= i < |cats| && Names(cats[i], q) && forall j :: 0 <= j < i ==> !Names(cats[j], q)
  }

  /** `FirstMatch` finds a key exactly when some entry is named, and then it
      is the key of the first such entry. */
  lemma {:induction false} FirstMatchIsFirst(cats: seq<Category>, q: string)
    ensures FirstMatch(cats, q).None? <==> forall i :: 0 <= i < |cats| ==> !Names(cats[i], q)
    ensures FirstMatch(cats, q).Some? ==>
      exists i :: FirstNamedAt(cats, q, i) && FirstMatch(cats, q).value == cats[i].key
  {
    if cats != [] && !Names(cats[0], q) {
      FirstMatchIsFirst(cats[1..], q);
      if FirstMatch(cats, q).Some? {
        var i :| FirstNamedAt(cats[1..], q, i) && FirstMatch(cats[1..], q).value == cats[1..][i].key;
        assert cats[i + 1] == cats[1..][i];
        assert forall j :: 1 <= j < i + 1 ==> cats[j] == cats[1..][j - 1];
        assert FirstNamedAt(cats, q, i + 1);
      }
    } else if cats != [] {
      assert FirstNamedAt(cats, q, 0);
    }
  }

  /** The category-resolution loop of `search`: scan `CATEGORY_MAP` in order
      and stop at the first entry the lower-cased query names. */
  method ResolveCategory(query: string) returns (key: Option<string>)
    ensures key == FirstMatch(CategoryMap, Lower(query))
    ensures key.None? <==> forall i :: 0 <= i < |CategoryMap| ==> !Names(CategoryMap[i], Lower(query))
    ensures key.Some? ==>
      exists i :: FirstNamedAt(CategoryMap, Lower(query), i) && key.value == CategoryMap[i].key
  {
    var q := Lower(query);
    key := None;
    for i := 0 to |CategoryMap|
      invariant key == None
      invariant forall j :: 0 <= j < i ==> !Names(CategoryMap[j], q)
      invariant FirstMatch(CategoryMap, q) == FirstMatch(CategoryMap[i..], q)
    {
      assert CategoryMap[i..][1..] == CategoryMap[i + 1..];
      if Names(CategoryMap[i], q) {
        key := Some(CategoryMap[i].key);
        break;
      }
    }
    FirstMatchIsFirst(CategoryMap, q);
  }

  /** Every string a category search accepts: the keys and display names of
      `CATEGORY_MAP`, all already lower-case. */
  const CategoryNames: set<string> := {
    "izaga", "proverbs", "izibongo", "praise poetry", "izisho", "idioms",
    "philosophy", "ifilosofi", "folktale", "inganekwane", "history", "umlando",
    "other", "okunye"
  }

  /** The display names of `CATEGORY_MAP` are already lower-case, so
      lower-casing them changes nothing. */
  lemma DisplayNamesLowerCase()
    ensures forall i :: 0 <= i < |CategoryMap| ==>
      Lower(CategoryMap[i].en) == CategoryMap[i].en && Lower(CategoryMap[i].zu) == CategoryMap[i].zu
  {
    EnglishNamesLowerCase();
    ZuluNamesLowerCase();
  }

  lemma EnglishNamesLowerCase()
    ensures forall i :: 0 <= i < |CategoryMap| ==> Lower(CategoryMap[i].en) == CategoryMap[i].en
  {
    forall i | 0 <= i < |CategoryMap|
      ensures Lower(CategoryMap[i].en) == CategoryMap[i].en
    {
      LowerOfLowerCase(CategoryMap[i].en);
    }
  }

  lemma ZuluNamesLowerCase()
    ensures forall i :: 0 <= i < |CategoryMap| ==> Lower(CategoryMap[i].zu) == CategoryMap[i].zu
  {
    forall i | 0 <= i < |CategoryMap|
      ensures Lower(CategoryMap[i].zu) == CategoryMap[i].zu
    {
      LowerOfLowerCase(CategoryMap[i].zu);
    }
  }

  /** The whole strings that name entry `c` once compared with a lower-cased
      query. */
  function NamesOf(c: Category): set<string> {
    {c.key, Lower(c.en), Lower(c.zu)}
  }

  lemma NamesOfMap()
    ensures NamesOf(CategoryMap[0]) == {"izaga", "proverbs"}
    ensures NamesOf(CategoryMap[1]) == {"izibongo", "praise poetry"}
    ensures NamesOf(CategoryMap[2]) == {"izisho", "idioms"}
    ensures NamesOf(CategoryMap[3]) == {"philosophy", "ifilosofi"}
    ensures NamesOf(CategoryMap[4]) == {"folktale", "inganekwane"}
    ensures NamesOf(CategoryMap[5]) == {"history", "umlando"}
    ensures NamesOf(CategoryMap[6]) == {"other", "okunye"}
  {
    DisplayNamesLowerCase();
  }

  /** `CategoryNames` is the union of the entries' names. */
  lemma CategoryNamesUnion(q: string)
    ensures q in CategoryNames <==> exists i :: 0 <= i < |CategoryMap| && q in NamesOf(CategoryMap[i])
  {
    NamesOfMap();
    if q in CategoryNames {
      if q in NamesOf(CategoryMap[0]) {
      } else if q in NamesOf(CategoryMap[1]) {
      } else if q in NamesOf(CategoryMap[2]) {
      } else if q in NamesOf(CategoryMap[3]) {
      } else if q in NamesOf(CategoryMap[4]) {
      } else if q in NamesOf(CategoryMap[5]) {
      } else {
        assert q in NamesOf(CategoryMap[6]);
      }
    }
  }

  lemma FirstMatchSomeIff(cats: seq<Category>, q: string)
    ensures FirstMatch(cats, q).Some? <==> exists i :: 0 <= i < |cats| && q in NamesOf(cats[i])
  {
    FirstMatchIsFirst(cats, q);
    assert forall i :: 0 <= i < |cats| ==> (Names(cats[i], q) <==> q in NamesOf(cats[i]));
  }

  /** A lower-cased query is a category search exactly when it is one of the
      vocabulary's keys or display names, as a whole string: no partial
      match, no extra words. */
  lemma CategorySearchIffName(q: string)
    ensures FirstMatch(CategoryMap, q).Some? <==> q in CategoryNames
  {
    FirstMatchSomeIff(CategoryMap, q);
    CategoryNamesUnion(q);
  }

  /** No string names two different entries. */
  lemma NamesDisjoint()
    ensures forall i, j :: 0 <= i < j < |CategoryMap| ==> NamesOf(CategoryMap[i]) !! NamesOf(CategoryMap[j])
  {
    NamesOfMap();
  }

  /** Each key and display name, in any letter case, resolves to its own
      entry's key. */
  lemma NameResolvesToOwnKey(i: nat, query: string)
    requires i < |CategoryMap| && Lower(query) in NamesOf(CategoryMap[i])
    ensures FirstMatch(CategoryMap, Lower(query)) == Some(CategoryMap[i].key)
  {
    var q := Lower(query);
    NamesDisjoint();
    FirstMatchIsFirst(CategoryMap, q);
    assert Names(CategoryMap[i], q);
    var f :| FirstNamedAt(CategoryMap, q, f) && FirstMatch(CategoryMap, q).value == CategoryMap[f].key;
    assert q in NamesOf(CategoryMap[f]);
    if f < i {
      assert false;
    }
  }
}
