/**
 * `CarService`: the car types and models present in the fleet, each listed once.
 */
module Catalog {
  import opened Queries
  import opened Entities

  /** `GetCarTypes()`: `cars.Select(c => c.Type).Distinct()`. */
  function GetCarTypes(cars: seq<Car>): (types: seq<string>)
    ensures NoDuplicates(types)
    ensures forall t :: t in types <==> exists c :: c in cars && c.carType == t
    ensures |types| <= |cars|
  {
    var all := Select(cars, (c: Car) => c.carType);
    assert forall t :: t in all <==> exists c :: c in cars && c.carType == t by {
      forall t ensures t in all <==> exists c :: c in cars && c.carType == t {
        if exists c :: c in cars && c.carType == t {
          var c :| c in cars && c.carType == t;
          var i :| 0 <= i < |cars| && cars[i] == c;
          assert all[i] == t;
        }
      }
    }
    Distinct(all)
  }

  /** `GetCarModels()`: `cars.Select(c => c.Model).Distinct()`. */
  function GetCarModels(cars: seq<Car>): (models: seq<string>)
    ensures NoDuplicates(models)
    ensures forall m :: m in models <==> exists c :: c in cars && c.model == m
    ensures |models| <= |cars|
  {
    var all := Select(cars, (c: Car) => c.model);
    assert forall m :: m in all <==> exists c :: c in cars && c.model == m by {
      forall m ensures m in all <==> exists c :: c in cars && c.model == m {
        if exists c :: c in cars && c.model == m {
          var c :| c in cars && c.model == m;
          var i :| 0 <= i < |cars| && cars[i] == c;
          assert all[i] == m;
        }
      }
    }
    Distinct(all)
  }

  /** A fleet of n cars of one type and one model lists exactly that type and that model. */
  lemma UniformFleet(cars: seq<Car>, t: string, m: string)
    requires cars != [] && forall c :: c in cars ==> c.carType == t && c.model == m
    ensures GetCarTypes(cars) == [t] && GetCarModels(cars) == [m]
  {
    assert cars[0] in cars;
    SingletonOfNoDuplicates(GetCarTypes(cars), t);
    SingletonOfNoDuplicates(GetCarModels(cars), m);
  }

  /** A duplicate-free sequence whose only member is x is [x]. */
  lemma SingletonOfNoDuplicates(s: seq<string>, x: string)
    requires NoDuplicates(s) && x in s && forall y :: y in s ==> y == x
    ensures s == [x]
  {
    if |s| > 1 {
      assert s[0] in s && s[1] in s;
    }
    assert s[0] in s;
  }
}
