/** Occurrences of one string in another. */
module Text {
  predicate OccursAt(text: string, key: string, i: int) {
    0 <= i <= |text| - |key| && text[i..i + |key|] == key
  }

  predicate Contains(text: string, key: string) {
    exists i :: 0 <= i <= |text| && OccursAt(text, key, i)
  }

  lemma OccursInPrefix(u: string, x: string, key: string, i: int)
    requires i + |key| <= |u|
    ensures OccursAt(u + x, key, i) <==> OccursAt(u, key, i)
  {
    if 0 <= i {
      assert (u + x)[i..i + |key|] == u[i..i + |key|];
    }
  }

  lemma OccursInSuffix(u: string, x: string, key: string, i: int)
    requires |u| <= i
    ensures OccursAt(u + x, key, i) <==> OccursAt(x, key, i - |u|)
  {
    if i + |key| <= |u + x| {
      assert (u + x)[i..i + |key|] == x[i - |u|..i - |u| + |key|];
    }
  }

  lemma HasText(front: string, key: string, rest: string)
    ensures Contains(front + key + rest, key)
  {
    assert (front + key + rest)[|front|..|front| + |key|] == key;
    assert OccursAt(front + key + rest, key, |front|);
  }
}
