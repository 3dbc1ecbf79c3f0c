/** simple_equation.py: a chromosome of two integer genes, `x` and `y`,
    whose fitness `6x - x^2 + 4y - y^2` a genetic algorithm maximises. */
module SimpleEquation {

  datatype Chromosome = Chromosome(x: int, y: int)

  /** `fitness`: `6x - x*x + 4y - y*y`. Its maximum is 13, the demo's
      threshold, reached only at x = 3, y = 2. */
  function Fitness(c: Chromosome): (r: int)
    ensures r == 13 - (c.x - 3) * (c.x - 3) - (c.y - 2) * (c.y - 2)
    ensures r <= 13
    ensures r == 13 <==> c == Chromosome(3, 2)
  {
    var x, y := c.x, c.y;
    assert (x - 3) * (x - 3) == x * x - 6 * x + 9;
    assert (y - 2) * (y - 2) == y * y - 4 * y + 4;
    SquareZero(x - 3);
    SquareZero(y - 2);
    6 * x - x * x + 4 * y - y * y
  }

  lemma SquareZero(a: int)
    ensures a * a >= 0
    ensures a * a == 0 <==> a == 0
  {
  }

  /** `crossover` as written: `child1` is a copy of `self` whose `x` is set
      to `other.y`, and `child2` is a copy of `other` whose `y` is set to
      `other.y`, which it already was. The copies are fresh values, so
      neither parent changes. */
  function CrossoverAsWritten(self: Chromosome, other: Chromosome): (r: (Chromosome, Chromosome))
    ensures r.0 == Chromosome(other.y, self.y)
    ensures r.1 == other
  {
    var child1 := self.(x := other.y);
    var child2 := other.(y := other.y);
    (child1, child2)
  }

  /** As written, a child can carry an `x` that neither parent had, and
      the second child is always the second parent unchanged. */
  lemma {:induction false} CrossoverAsWrittenMixesGenes()
    ensures var r := CrossoverAsWritten(Chromosome(0, 0), Chromosome(1, 2));
      r.0.x != 0 && r.0.x != 1 && r.1 == Chromosome(1, 2)
  {
  }

  /** Each child's genes come from the parents' genes of the same name, and
      between them the two children carry every gene of both parents. */
  ghost predicate Recombines(self: Chromosome, other: Chromosome, r: (Chromosome, Chromosome)) {
    && multiset{r.0.x, r.1.x} == multiset{self.x, other.x}
    && multiset{r.0.y, r.1.y} == multiset{self.y, other.y}
  }

  /** `crossover` as evidently intended: the children swap their `y` genes,
      `child1.y = other.y` and `child2.y = self.y`. */
  function Crossover(self: Chromosome, other: Chromosome): (r: (Chromosome, Chromosome))
    ensures Recombines(self, other, r)
    ensures r.0.x == self.x && r.1.x == other.x
  {
    (self.(y := other.y), other.(y := self.y))
  }

  /** The written version breaks the recombination property the corrected
      one keeps. */
  lemma {:induction false} CrossoverAsWrittenDoesNotRecombine()
    ensures !Recombines(Chromosome(0, 0), Chromosome(1, 2), CrossoverAsWritten(Chromosome(0, 0), Chromosome(1, 2)))
  {
    var r := CrossoverAsWritten(Chromosome(0, 0), Chromosome(1, 2));
    assert multiset{r.0.x, r.1.x}[2] == 1;
    assert multiset{0, 1}[2] == 0;
  }

  /** `mutate`, with its two coin flips (`random() > 0.5`) as parameters:
      the first picks the gene, the second the direction. Exactly one gene
      moves, by exactly one. */
  function Mutate(c: Chromosome, mutateX: bool, up: bool): (r: Chromosome)
    ensures mutateX ==> r.y == c.y && (r.x == c.x + 1 || r.x == c.x - 1)
    ensures !mutateX ==> r.x == c.x && (r.y == c.y + 1 || r.y == c.y - 1)
    ensures up ==> r.x + r.y == c.x + c.y + 1
    ensures !up ==> r.x + r.y == c.x + c.y - 1
  {
    if mutateX then
      if up then c.(x := c.x + 1) else c.(x := c.x - 1)
    else
      if up then c.(y := c.y + 1) else c.(y := c.y - 1)
  }

  /** The chromosomes one gene-step away. */
  predicate Neighbours(c: Chromosome, d: Chromosome) {
    (c.y == d.y && (d.x == c.x + 1 || d.x == c.x - 1)) ||
    (c.x == d.x && (d.y == c.y + 1 || d.y == c.y - 1))
  }

  /** Every neighbour is the outcome of some pair of coin flips, and every
      outcome is a neighbour. */
  lemma {:induction false} MutateReachesNeighbours(c: Chromosome, d: Chromosome)
    ensures Neighbours(c, d) <==> exists mutateX: bool, up: bool :: Mutate(c, mutateX, up) == d
  {
    if Neighbours(c, d) {
      var mutateX := d.y == c.y;
      var up := d.x + d.y == c.x + c.y + 1;
      assert Mutate(c, mutateX, up) == d;
    }
  }
}
