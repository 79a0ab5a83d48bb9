/**
 * The sample payload of the exercise: Thing and its four concrete kinds
 * (Car, Person, Student, Transformer). The C++ class diamond becomes one
 * datatype; the virtual `get_criteria` overrides become one function by cases.
 */
module Entities {

  /** The `Genders` enumeration; its C++ values are FEMALE = 0 and MALE = 1. */
  datatype Gender = Female | Male

  /** Every thing carries the id it was issued; the other fields are per kind. */
  datatype Thing =
    | Car(id: int, colour: string)
    | Person(id: int, gender: Gender)
    | Student(id: int, gender: Gender, name: string)
    | Transformer(id: int, gender: Gender, colour: string, power: int)

  /** Three-way result of `operator<=>` (a `strong_ordering`). */
  datatype Ordering = Less | Equivalent | Greater

  /** The enumeration value of a gender. */
  function GenderValue(g: Gender): (v: int)
    ensures v == 0 <==> g == Female
    ensures v == 1 <==> g == Male
  {
    match g
    case Female => 0
    case Male => 1
  }

  /** `Person::get_gender_string`; the "undefined" branch is unreachable for the two enum values. */
  function GenderString(g: Gender): (s: string)
    ensures s == "female" <==> g == Female
  {
    match g
    case Male => "male"
    case Female => "female"
  }

  /** True of the kinds that derive from Person: the cast to a Person succeeds for all but a Car. */
  predicate IsPersonLike(t: Thing): (r: bool)
    ensures r <==> !t.Car?
  {
    t.Person? || t.Student? || t.Transformer?
  }

  /**
   * The comparison criterion each kind stores when it is constructed:
   * Car 8, Person its gender value, Student 4 plus that, and Transformer
   * Car's criterion plus Person's minus 2.
   */
  function Criteria(t: Thing): (r: int)
    ensures 0 <= r <= 8
    ensures r == 8 <==> t.Car?
  {
    match t
    case Car(_, _) => 8
    case Person(_, g) => GenderValue(g)
    case Student(_, g, _) => 4 + GenderValue(g)
    case Transformer(_, g, _, _) => 8 + GenderValue(g) - 2
  }

  /** The criterion of each kind, as a table over kind and gender. */
  lemma CriteriaTable(t: Thing)
    ensures t.Car? ==> Criteria(t) == 8
    ensures t.Person? ==> Criteria(t) == (if t.gender == Female then 0 else 1)
    ensures t.Student? ==> Criteria(t) == (if t.gender == Female then 4 else 5)
    ensures t.Transformer? ==> Criteria(t) == (if t.gender == Female then 6 else 7)
  {
  }

  /**
   * Persons rank below Students, Students below Transformers and Transformers
   * below Cars, whatever their genders.
   */
  lemma CriteriaRanksKinds(a: Thing, b: Thing)
    ensures a.Person? && !b.Person? ==> Criteria(a) < Criteria(b)
    ensures a.Student? && (b.Transformer? || b.Car?) ==> Criteria(a) < Criteria(b)
    ensures a.Transformer? && b.Car? ==> Criteria(a) < Criteria(b)
  {
  }

  /** Two things have the same criterion exactly when they are of the same kind and, for persons, the same gender. */
  lemma CriteriaIdentifiesKindAndGender(a: Thing, b: Thing)
    ensures Criteria(a) == Criteria(b) <==>
      (a.Car? && b.Car?) ||
      (a.Person? && b.Person? && a.gender == b.gender) ||
      (a.Student? && b.Student? && a.gender == b.gender) ||
      (a.Transformer? && b.Transformer? && a.gender == b.gender)
  {
  }

  /** `Thing::operator<=>`: the criteria compared as integers. */
  function Compare(a: Thing, b: Thing): (r: Ordering)
    ensures r == Greater <==> Criteria(a) > Criteria(b)
    ensures r == Less <==> Criteria(b) > Criteria(a)
  {
    if Criteria(a) < Criteria(b) then Less
    else if Criteria(a) == Criteria(b) then Equivalent
    else Greater
  }

  /** The comparison is a strong ordering on criteria: it agrees with integer order, is antisymmetric and transitive. */
  lemma CompareIsStrongOrdering(a: Thing, b: Thing, c: Thing)
    ensures Compare(a, b) == Less <==> Criteria(a) < Criteria(b)
    ensures Compare(a, b) == Equivalent <==> Criteria(a) == Criteria(b)
    ensures Compare(a, b) == Greater <==> Criteria(a) > Criteria(b)
    ensures Compare(a, b) == Less <==> Compare(b, a) == Greater
    ensures Compare(a, a) == Equivalent
    ensures Compare(a, b) == Less && Compare(b, c) == Less ==> Compare(a, c) == Less
  {
  }

  /**
   * `womanPower`: the thing converts to a Person and that person's gender
   * string is "female". That holds exactly of female Persons, Students and
   * Transformers, and never of a Car.
   */
  function WomanPower(t: Thing): (r: bool)
    ensures r <==> IsPersonLike(t) && t.gender == Female
    ensures t.Car? ==> !r
  {
    IsPersonLike(t) && GenderString(t.gender) == "female"
  }

  /**
   * `Thing::last_id`: the counter every Thing constructor draws its id from.
   * Under virtual inheritance a Transformer runs the Thing constructor once,
   * so each object of any kind takes exactly one id.
   */
  class IdIssuer {
    var lastId: int

    constructor ()
      ensures lastId == 0
    {
      lastId := 0;
    }

    /** The body of `Thing()`: hand out the current id and advance the counter. */
    method Issue() returns (id: int)
      modifies this
      ensures id == old(lastId)
      ensures lastId == old(lastId) + 1
    {
      id := lastId;
      lastId := lastId + 1;
    }

    method NewCar(colour: string) returns (t: Thing)
      modifies this
      ensures t == Car(old(lastId), colour)
      ensures lastId == old(lastId) + 1
    {
      var id := Issue();
      t := Car(id, colour);
    }

    method NewPerson(g: Gender) returns (t: Thing)
      modifies this
      ensures t == Person(old(lastId), g)
      ensures lastId == old(lastId) + 1
    {
      var id := Issue();
      t := Person(id, g);
    }

    method NewStudent(g: Gender, name: string) returns (t: Thing)
      modifies this
      ensures t == Student(old(lastId), g, name)
      ensures lastId == old(lastId) + 1
    {
      var id := Issue();
      t := Student(id, g, name);
    }

    method NewTransformer(g: Gender, colour: string, power: int) returns (t: Thing)
      modifies this
      ensures t == Transformer(old(lastId), g, colour, power)
      ensures lastId == old(lastId) + 1
    {
      var id := Issue();
      t := Transformer(id, g, colour, power);
    }

    /** `Car()`: delegates with colour "white". */
    method NewDefaultCar() returns (t: Thing)
      modifies this
      ensures t == Car(old(lastId), "white")
      ensures lastId == old(lastId) + 1
    {
      t := NewCar("white");
    }

    /** `Person()`: delegates with MALE. */
    method NewDefaultPerson() returns (t: Thing)
      modifies this
      ensures t == Person(old(lastId), Male)
      ensures lastId == old(lastId) + 1
    {
      t := NewPerson(Male);
    }

    /** `Student()`: delegates with MALE and "Ivan". */
    method NewDefaultStudent() returns (t: Thing)
      modifies this
      ensures t == Student(old(lastId), Male, "Ivan")
      ensures lastId == old(lastId) + 1
    {
      t := NewStudent(Male, "Ivan");
    }

    /** `Transformer()`: delegates with MALE, "white" and power 5. */
    method NewDefaultTransformer() returns (t: Thing)
      modifies this
      ensures t == Transformer(old(lastId), Male, "white", 5)
      ensures lastId == old(lastId) + 1
    {
      t := NewTransformer(Male, "white", 5);
    }
  }
}
