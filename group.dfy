/**
  * A named group of people, holding the names of its members in a set that
  * its methods update in place.
  */
module Groups {
  import opened Text
  import opened Persons

  /** `m` is not after any name of `s`. */
  ghost predicate IsLeast(m: string, s: set<string>) {
    forall y :: y in s ==> LessEq(m, y)
  }

  /** The smallest name of a non-empty set exists. */
  lemma {:induction false} LeastExists(s: set<string>)
    requires s != {}
    ensures exists m :: m in s && IsLeast(m, s)
    decreases s
  {
    var x :| x in s;
    LessEqReflexive(x);
    if s == {x} {
      assert IsLeast(x, s);
    } else {
      LeastExists(s - {x});
      var m :| m in s - {x} && IsLeast(m, s - {x});
      LessEqTotal(x, m);
      if LessEq(x, m) {
        forall y | y in s ensures LessEq(x, y) {
          if y != x {
            LessEqTransitive(x, m, y);
          }
        }
        assert IsLeast(x, s);
      } else {
        assert IsLeast(m, s);
      }
    }
  }

  /** The smallest name of a non-empty set, in the order of String.compareTo. */
  ghost function Least(s: set<string>): (m: string)
    requires s != {}
    ensures m in s && forall y :: y in s ==> LessEq(m, y)
  {
    LeastExists(s);
    var m :| m in s && IsLeast(m, s);
    m
  }

  /** The names of a set in ascending order, each once. */
  ghost function Ascending(s: set<string>): seq<string>
    decreases s
  {
    if s == {} then [] else [Least(s)] + Ascending(s - {Least(s)})
  }

  ghost predicate StrictlyAscending(xs: seq<string>) {
    forall i, j :: 0 <= i < j < |xs| ==> LessEq(xs[i], xs[j]) && xs[i] != xs[j]
  }

  /** Ascending(s) lists exactly the names of s, strictly ascending. */
  lemma {:induction false} AscendingListsTheSet(s: set<string>)
    ensures StrictlyAscending(Ascending(s))
    ensures forall x :: x in Ascending(s) <==> x in s
    ensures |Ascending(s)| == |s|
    decreases s
  {
    if s != {} {
      var m := Least(s);
      AscendingListsTheSet(s - {m});
      var xs := Ascending(s);
      assert xs == [m] + Ascending(s - {m});
      forall i, j | 0 <= i < j < |xs| ensures LessEq(xs[i], xs[j]) && xs[i] != xs[j] {
        if i == 0 {
          assert xs[j] in Ascending(s - {m});
        }
      }
    }
  }

  /** Any strictly ascending listing of s is Ascending(s): sorting a set has one answer. */
  lemma {:induction false} AscendingUnique(xs: seq<string>, s: set<string>)
    requires StrictlyAscending(xs)
    requires forall x :: x in xs <==> x in s
    ensures xs == Ascending(s)
    decreases |xs|
  {
    if xs == [] {
      assert s == {};
    } else {
      assert xs[0] in s;
      var m := Least(s);
      assert m in xs;
      var k :| 0 <= k < |xs| && xs[k] == m;
      assert LessEq(xs[0], m);
      LessEqAntisymmetric(xs[0], m);
      var rest := xs[1..];
      forall x ensures x in rest <==> x in s - {m} {
        if x in rest {
          var i :| 0 <= i < |rest| && rest[i] == x;
          assert xs[i + 1] == x;
        }
        if x in s - {m} {
          assert x in xs;
          var i :| 0 <= i < |xs| && xs[i] == x;
          assert i != 0;
          assert rest[i - 1] == x;
        }
      }
      AscendingUnique(rest, s - {m});
      assert xs == [m] + rest;
    }
  }

  /** The smallest of the names, by a pass over the set. */
  method LeastName(s: set<string>) returns (m: string)
    requires s != {}
    ensures m in s && forall y :: y in s ==> LessEq(m, y)
  {
    m :| m in s;
    LessEqReflexive(m);
    var rest := s - {m};
    while rest != {}
      invariant rest <= s && m in s && m !in rest
      invariant forall y :: y in s && y !in rest ==> LessEq(m, y)
      decreases rest
    {
      var y :| y in rest;
      LessEqTotal(m, y);
      if !LessEq(m, y) {
        forall z | z in s && z !in rest
          ensures LessEq(y, z)
        {
          LessEqTransitive(y, m, z);
        }
        m := y;
      }
      LessEqReflexive(y);
      rest := rest - {y};
    }
  }

  class Group {
    var groupName: string
    var persons: set<string>

    /** Group(name, persons). */
    constructor (name: string, persons: set<string>)
      ensures groupName == name && this.persons == persons
    {
      groupName := name;
      this.persons := persons;
    }

    /** Group(name): no members yet. */
    constructor Empty(name: string)
      ensures groupName == name && persons == {}
    {
      groupName := name;
      persons := {};
    }

    /** addPerson(p): the person's name joins; no other membership changes. */
    method AddPerson(p: Person)
      modifies this
      ensures persons == old(persons) + {p.name} && groupName == old(groupName)
    {
      persons := persons + {p.name};
    }

    /** addPersonName(n). */
    method AddPersonName(personName: string)
      modifies this
      ensures persons == old(persons) + {personName} && groupName == old(groupName)
    {
      persons := persons + {personName};
    }

    /** removePersonName(n): n is no member afterwards, absent or not before. */
    method RemovePersonName(personName: string)
      modifies this
      ensures persons == old(persons) - {personName} && groupName == old(groupName)
    {
      persons := persons - {personName};
    }

    /** setPersonName(old, new): a member `old` is renamed to `new`; otherwise nothing changes. */
    method SetPersonName(personNameToEdit: string, editedPersonName: string)
      modifies this
      ensures personNameToEdit in old(persons) ==>
        persons == old(persons) - {personNameToEdit} + {editedPersonName}
      ensures personNameToEdit !in old(persons) ==> persons == old(persons)
      ensures groupName == old(groupName)
    {
      if personNameToEdit in persons {
        persons := persons - {personNameToEdit};
        persons := persons + {editedPersonName};
      }
    }

    /** setPerson(p, q): setPersonName on the two people's names. */
    method SetPerson(personToEdit: Person, editedPerson: Person)
      modifies this
      ensures personToEdit.name in old(persons) ==>
        persons == old(persons) - {personToEdit.name} + {editedPerson.name}
      ensures personToEdit.name !in old(persons) ==> persons == old(persons)
      ensures groupName == old(groupName)
    {
      if personToEdit.name in persons {
        persons := persons - {personToEdit.name};
        persons := persons + {editedPerson.name};
      }
    }

    /** setPersons(s): the membership becomes s. */
    method SetPersons(editedPersonSet: set<string>)
      modifies this
      ensures persons == editedPersonSet && groupName == old(groupName)
    {
      persons := editedPersonSet;
    }

    /** deletePerson(n): as removePersonName; no error when n is not a member. */
    method DeletePerson(personNameToDelete: string)
      modifies this
      ensures persons == old(persons) - {personNameToDelete} && groupName == old(groupName)
      ensures personNameToDelete !in persons
    {
      persons := persons - {personNameToDelete};
    }

    /** isEmpty: no members. */
    predicate IsEmpty()
      reads this
      ensures IsEmpty() <==> forall n :: n !in persons
    {
      |persons| == 0
    }

    /** isSameGroup: the same object, or another group with the same name. */
    predicate IsSameGroup(otherGroup: Group?)
      reads this, otherGroup
    {
      otherGroup == this || (otherGroup != null && otherGroup.groupName == groupName)
    }

    /** equals: the same object, or a group with the same name and the same members. */
    predicate Equals(other: Group?)
      reads this, other
    {
      other == this || (other != null && other.groupName == groupName && other.persons == persons)
    }

    /** toUi: the member names in ascending order, joined with ", ". */
    method ToUi() returns (ui: string)
      ensures ui == Join(Ascending(persons), ", ")
    {
      var rest := persons;
      var listed: seq<string> := [];
      while rest != {}
        invariant rest <= persons
        invariant listed + Ascending(rest) == Ascending(persons)
        decreases rest
      {
        var m := LeastName(rest);
        LessEqAntisymmetric(m, Least(rest));
        assert Ascending(rest) == [m] + Ascending(rest - {m});
        listed := listed + [m];
        rest := rest - {m};
      }
      assert Ascending(rest) == [] && listed + [] == listed;
      ui := Join(listed, ", ");
    }
  }

  /** Equal groups are the same group; the same group need not be equal. */
  lemma EqualsIsStrongerThanSameGroup(g: Group, other: Group?)
    ensures g.Equals(other) ==> g.IsSameGroup(other)
    ensures other != null && other != g && other.groupName == g.groupName && other.persons != g.persons
      ==> g.IsSameGroup(other) && !g.Equals(other)
  {
  }
}
