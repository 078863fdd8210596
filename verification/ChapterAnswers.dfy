/** What looking up a name in a list of a chapter index answers, and that a put changes
    only the answer for its own name (uds/chapterIndex.c). */
module ChapterAnswers {
  import opened Numbers
  import opened DeltaCode
  import opened DeltaEntries
  import opened UdsStatus
  import opened DeltaIndexSpec

  /** What a search for a name finds: the value of its entry, if there is one. */
  function Answer(es: seq<Entry>, key: nat, name: Name): Option<nat> {
    var j := Locate(es, key, name);
    if j < |es| && KeyAt(es, j) == key then Some(es[j].value) else None
  }

  lemma AnswerIs(f: Format, es: seq<Entry>, key: nat, name: Name, i: nat)
    requires WellFormed(f, es) && Distinct(View(es)) && Matches(View(es), i, key, name)
    ensures Answer(es, key, name) == Some(View(es)[i].value)
  {
    hide KeySum, Locate, WellFormed, Distinct;
    LocateIs(f, es, key, name, i);
  }

  lemma AnswerMeans(f: Format, es: seq<Entry>, key: nat, name: Name) returns (i: nat)
    requires WellFormed(f, es) && Answer(es, key, name).Some?
    ensures Matches(View(es), i, key, name) && Answer(es, key, name) == Some(View(es)[i].value)
  {
    hide KeySum, Locate, WellFormed;
    LocateMeaning(f, es, key, name);
    i := Locate(es, key, name);
  }

  lemma NoAnswer(f: Format, es: seq<Entry>, key: nat, name: Name)
    requires WellFormed(f, es) && Answer(es, key, name).None?
    ensures forall k :: 0 <= k < |View(es)| ==> View(es)[k].key != key
  {
    hide KeySum, Locate, WellFormed;
    LocateMeaning(f, es, key, name);
  }

  /** Adding one record. */
  lemma AnswerAfter(f: Format, es: seq<Entry>, es': seq<Entry>, p: nat, r: Record, key: nat, name: Name)
    requires WellFormed(f, es) && WellFormed(f, es') && Distinct(View(es)) && p <= |es|
    requires View(es') == View(es)[..p] + [r] + View(es)[p..]
    requires r.key == key && (r.name == Some(name) || r.name.None?)
    requires r.name.None? ==> Answer(es, key, name).None?
    requires forall k :: 0 <= k < |View(es)| && View(es)[k].key == key ==> View(es)[k].name != Some(name)
    ensures Distinct(View(es')) && Answer(es', key, name) == Some(r.value)
  {
    hide KeySum, Locate, WellFormed, Answer, View;
    if r.name.None? {
      NoAnswer(f, es, key, name);
    }
    var v, v' := View(es), View(es');
    forall k | 0 <= k < |v'|
      ensures v'[k] == if k < p then v[k] else if k == p then r else v[k - 1]
    {
    }
    assert Matches(v', p, key, name);
    AnswerIs(f, es', key, name, p);
  }

  /** What is found for other names does not change. */
  lemma OthersAfter(f: Format, es: seq<Entry>, es': seq<Entry>, p: nat, r: Record, key: nat, name: Name)
    requires WellFormed(f, es) && WellFormed(f, es') && Distinct(View(es')) && p <= |es|
    requires View(es') == View(es)[..p] + [r] + View(es)[p..]
    requires r.key != key || (r.name.Some? && r.name != Some(name))
    requires Answer(es, key, name).Some?
    ensures Answer(es', key, name) == Answer(es, key, name)
  {
    hide KeySum, Locate, WellFormed, Answer, View;
    var v, v' := View(es), View(es');
    var i := AnswerMeans(f, es, key, name);
    forall k | 0 <= k < |v'|
      ensures v'[k] == if k < p then v[k] else if k == p then r else v[k - 1]
    {
    }
    var i' := if i < p then i else i + 1;
    assert Matches(v', i', key, name);
    AnswerIs(f, es', key, name, i');
  }

  /** The name is found with its value, and no other answer has changed. */
  ghost predicate Gained(es: seq<Entry>, es': seq<Entry>, key: nat, name: Name, value: nat) {
    && Distinct(View(es')) && Answer(es', key, name) == Some(value)
    && forall key': nat, name': Name :: (key', name') != (key, name) && Answer(es, key', name').Some? ==>
      Answer(es', key', name') == Answer(es, key', name')
  }

  /** A put after a search gives the name its value and changes no other answer. */
  lemma PutAnswers(f: Format, es: seq<Entry>, key: nat, name: Name, value: nat)
    requires WellFormed(f, es) && Distinct(View(es)) && key <= f.maxKey && value < Pow2(f.valueBits)
    requires var j := Locate(es, key, name); j < |es| && KeyAt(es, j) == key ==> es[j].name.None?
    ensures var j := Locate(es, key, name);
      var put := if j < |es| && KeyAt(es, j) == key then Some(name) else None;
      && PutAllowed(es, j, key, put)
      && Gained(es, PutEntry(es, j, key, value, put), key, name, value)
  {
    hide KeySum, Locate, WellFormed, Answer, View;
    var j := Locate(es, key, name);
    var found := j < |es| && KeyAt(es, j) == key;
    FoundInView(f, es, key, name);
    var put := if found then Some(name) else None;
    var es' := PutEntry(es, j, key, value, put);
    var p := if found then j + 1 else j;
    var r := Record(key, value, put);
    if found {
      InsertCollisionView(f, es, j, value, name);
    } else {
      InsertPlainView(f, es, j, key, value);
    }
    AnswerAfter(f, es, es', p, r, key, name);
    forall key': nat, name': Name | (key', name') != (key, name) && Answer(es, key', name').Some?
      ensures Answer(es', key', name') == Answer(es, key', name')
    {
      if !found && key' == key {
        var i := AnswerMeans(f, es, key', name');
      }
      OthersAfter(f, es, es', p, r, key', name');
    }
  }

  lemma FoundInView(f: Format, es: seq<Entry>, key: nat, name: Name)
    requires WellFormed(f, es)
    requires var j := Locate(es, key, name); j < |es| && KeyAt(es, j) == key ==> es[j].name.None?
    ensures var j := Locate(es, key, name);
      && PutAllowed(es, j, key, if j < |es| && KeyAt(es, j) == key then Some(name) else None)
      && (j < |es| && KeyAt(es, j) == key <==> Answer(es, key, name).Some?)
      && (Answer(es, key, name).None? && j > 0 ==> KeySum(es[..j]) < key)
      && (Answer(es, key, name).None? && j < |es| ==> es[j].name.None?)
      && (Answer(es, key, name).None? ==> forall k :: 0 <= k < |View(es)| ==> View(es)[k].key != key)
      && forall k :: 0 <= k < |View(es)| && View(es)[k].key == key ==> View(es)[k].name != Some(name)
  {
    hide KeySum, WellFormed;
    var v, j := View(es), Locate(es, key, name);
    LocateMeaning(f, es, key, name);
    ViewInOrder(f, es);
    if j == 0 {
      assert es[..0] == [];
      EmptySum();
    } else {
      assert v[j - 1].key == KeyAt(es, j - 1) == KeySum(es[..j]);
    }
    assert j < |es| ==> v[j].key == KeyAt(es, j) && v[j].name == es[j].name;
  }

  lemma EmptySum()
    ensures KeySum([]) == 0
  {
  }
}
