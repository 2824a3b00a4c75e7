/**
 * The name-to-age registry of Application.java: a `HashMap<String, String>` field that the request
 * handlers update in place, and the messages they answer with.
 */
module Registry {

  const NoStudents := "登録されている生徒はいません。"

  function NotRegistered(name: string): string {
    "指定された生徒「" + name + "」は登録されていません。"
  }

  /** One line of the listing: "name：age歳" and a newline. */
  function Line(name: string, age: string): string {
    name + "：" + age + "歳\n"
  }

  /** The listing of the entries of `m` visited in the order `keys`. */
  function Lines(keys: seq<string>, m: map<string, string>): string
    requires forall k | k in keys :: k in m
  {
    if keys == [] then "" else Lines(keys[..|keys| - 1], m) + Line(keys[|keys| - 1], m[keys[|keys| - 1]])
  }

  /** The answer of `getStudent(name)` for the map `m`. */
  function StudentMessage(m: map<string, string>, name: string): string {
    if name in m then "生徒：" + name + " さんの年齢は " + m[name] + " 歳です。" else NotRegistered(name)
  }

  /** `keys` lists every key of `m` exactly once. */
  predicate EnumeratesKeys(keys: seq<string>, m: map<string, string>) {
    && |keys| == |m|
    && (forall k | k in keys :: k in m)
    && (forall k | k in m :: k in keys)
    && (forall i, j | 0 <= i < j < |keys| :: keys[i] != keys[j])
  }

  class Application {
    var students: map<string, string>

    constructor()
      ensures students == map[]
    {
      students := map[];
    }

    /** `registerStudent`: insert or overwrite, leaving every other entry as it was. */
    method RegisterStudent(name: string, age: string) returns (msg: string)
      modifies this
      ensures students == old(students)[name := age]
      ensures msg == "登録しました：" + name + "（" + age + "歳）"
    {
      students := students[name := age];
      msg := "登録しました：" + name + "（" + age + "歳）";
    }

    /**
     * `getAllStudents`: the fixed message for an empty map; otherwise one line per entry, each entry
     * exactly once, in the map's iteration order `order`, which the model leaves unspecified.
     */
    method GetAllStudents() returns (result: string, ghost order: seq<string>)
      ensures students == map[] <==> result == NoStudents
      ensures students != map[] ==> EnumeratesKeys(order, students) && result == Lines(order, students)
    {
      if students == map[] {
        return NoStudents, [];
      }
      result := "";
      order := [];
      var remaining := students.Keys;
      while remaining != {}
        invariant remaining <= students.Keys
        invariant forall k | k in order :: k in students && k !in remaining
        invariant forall k | k in students :: k in order || k in remaining
        invariant forall i, j | 0 <= i < j < |order| :: order[i] != order[j]
        invariant result == Lines(order, students)
        decreases remaining
      {
        var name :| name in remaining;
        result := result + Line(name, students[name]);
        order := order + [name];
        remaining := remaining - {name};
      }
      DistinctKeysCount(order, students);
      assert result != NoStudents by {
        assert order != [];
        NonEmptyListingEndsWithNewline(order, students);
      }
    }

    /** `getStudent`: the age message exactly for a registered name; the map is only read. */
    method GetStudent(name: string) returns (msg: string)
      ensures msg == StudentMessage(students, name)
    {
      if name in students {
        msg := "生徒：" + name + " さんの年齢は " + students[name] + " 歳です。";
      } else {
        msg := NotRegistered(name);
      }
    }

    /** `updateAge`: overwrites the age of a registered name and never adds an entry. */
    method UpdateAge(name: string, age: string) returns (msg: string)
      modifies this
      ensures name in old(students) ==> students == old(students)[name := age] && msg == name + "の年齢を" + age + "歳に更新しました。"
      ensures name !in old(students) ==> students == old(students) && msg == NotRegistered(name)
      ensures students.Keys == old(students).Keys
    {
      if name in students {
        students := students[name := age];
        msg := name + "の年齢を" + age + "歳に更新しました。";
      } else {
        msg := NotRegistered(name);
      }
    }

    /** `deleteStudent`: removes a registered name; an absent name leaves the map as it was. */
    method DeleteStudent(name: string) returns (msg: string)
      modifies this
      ensures students == old(students) - {name}
      ensures msg == if name in old(students) then name + "を削除しました。" else NotRegistered(name)
    {
      if name in students {
        students := students - {name};
        msg := name + "を削除しました。";
      } else {
        msg := NotRegistered(name);
      }
    }
  }

  /** A listing of at least one entry ends with a newline, so it is never the empty-map message. */
  lemma NonEmptyListingEndsWithNewline(keys: seq<string>, m: map<string, string>)
    requires keys != [] && forall k | k in keys :: k in m
    ensures Lines(keys, m) != NoStudents
  {
    var s := Lines(keys, m);
    var last := Line(keys[|keys| - 1], m[keys[|keys| - 1]]);
    assert s[|s| - 1] == last[|last| - 1] == '\n';
    assert NoStudents[|NoStudents| - 1] == '。';
  }

  /** Distinct keys of a map, covering all of them, are exactly as many as the map has. */
  lemma DistinctKeysCount(keys: seq<string>, m: map<string, string>)
    requires forall k | k in keys :: k in m
    requires forall k | k in m :: k in keys
    requires forall i, j | 0 <= i < j < |keys| :: keys[i] != keys[j]
    ensures |keys| == |m|
  {
    var ks := set k | k in keys;
    assert ks == m.Keys;
    DistinctCard(keys);
  }

  lemma {:induction false} DistinctCard(keys: seq<string>)
    requires forall i, j | 0 <= i < j < |keys| :: keys[i] != keys[j]
    ensures |set k | k in keys| == |keys|
  {
    if keys != [] {
      var init := keys[..|keys| - 1];
      DistinctCard(init);
      assert (set k | k in keys) == (set k | k in init) + {keys[|keys| - 1]};
      assert keys[|keys| - 1] !in init;
    }
  }

  /** Once a name is deleted, asking for it reports it as not registered; other names answer as before. */
  lemma DeleteThenGet(m: map<string, string>, name: string, other: string)
    requires other != name
    ensures StudentMessage(m - {name}, name) == NotRegistered(name)
    ensures StudentMessage(m - {name}, other) == StudentMessage(m, other)
  {
  }
}
