/** Runs of the hash commands on the data the hash tests start from, showing
    what the commands as written answer where the tests expect otherwise. */
module HashScenarios {
  import opened Dict
  import opened Json
  import opened RedCached

  /** The document `hmset('a', {'1': 1, '2': 2, '3': 3})` leaves under `a`,
      in one of its possible member orders. */
  function Fixture(): Document
  {
    Object([("1", Int(1)), ("2", Int(2)), ("3", Int(3))])
  }

  /** The fixture decodes to the dictionary the tests wrote. */
  lemma FixtureLoads()
    ensures Loads(Fixture()) == map["1" := Int(1), "2" := Int(2), "3" := Int(3)]
  {
    var ms := Fixture().members;
    FromItemsLastWins(ms, 0);
    FromItemsLastWins(ms, 1);
    FromItemsLastWins(ms, 2);
  }

  /** Deleting the last field of a hash (the state the delete test reaches
      before its last delete): the command answers `SUCCESS`, and `hgetall`
      then finds an empty hash where the test expects a missing key. */
  method DeleteLastField() returns (answer: int, all: Option<map<string, Val>>)
    ensures answer == SUCCESS
    ensures all == Some(map[])
  {
    var c := new Client(map["a" := Object([("3", Int(3))])]);
    FromItemsLastWins([("3", Int(3))], 0);
    assert c.HExists("a", "3");
    assert (set f | f in ["3"]) == {"3"};
    answer := c.HDel("a", ["3"]);
    all := c.HGetAll("a");
    assert all.value.Keys == {};
  }

  /** Incrementing field `1` of `a` by 1: the field becomes 2, and the
      command answers the write status `SUCCESS`, not the new value. */
  method IncrementField() returns (answer: Result<int>, value: Option<Val>)
    ensures answer == Ok(SUCCESS)
    ensures value == Some(Int(2))
  {
    var c := new Client(map["a" := Fixture()]);
    FixtureLoads();
    assert c.HGet("a", "1") == Some(Int(1));
    answer := c.HIncrBy("a", "1", Int(1));
    value := c.HGet("a", "1");
  }
}
