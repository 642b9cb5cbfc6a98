/**
 * The Kohonen self-organising map object: its configuration, the grid of
 * neuron weight vectors it allocates on construction, and the training set
 * that `loadData` fills from a CSV file.
 */
module SelfOrganizingMap {
  import opened Wrappers
  import opened CsvLine
  import opened TrainingData

  /** `weights[x][y][z]` is the weight vector of neuron (x, y, z). */
  type Grid = seq<seq<seq<seq<real>>>>

  /** A dense `gx` by `gy` by `gz` grid of vectors of length `n`. */
  predicate HasShape(weights: Grid, gx: int, gy: int, gz: int, n: int)
  {
    && |weights| == gx
    && (forall x :: 0 <= x < |weights| ==> |weights[x]| == gy)
    && (forall x, y :: 0 <= x < |weights| && 0 <= y < |weights[x]| ==> |weights[x][y]| == gz)
    && (forall x, y, z :: 0 <= x < |weights| && 0 <= y < |weights[x]| && 0 <= z < |weights[x][y]| ==>
          |weights[x][y][z]| == n)
  }

  /** The nested vectors `resize` builds, every entry value-initialised to 0. */
  function ZeroGrid(gx: nat, gy: nat, gz: nat, n: nat): (weights: Grid)
    ensures HasShape(weights, gx, gy, gz, n)
  {
    seq(gx, _ => seq(gy, _ => seq(gz, _ => seq(n, _ => 0.0))))
  }

  /** The parameter test of the constructor: every extent, count, rate and radius positive. */
  predicate ValidConfig(gridX: int, gridY: int, gridZ: int, inputSize: int, epochs: int,
                        initialLearningRate: real, initialSigma: real)
  {
    gridX > 0 && gridY > 0 && gridZ > 0 && inputSize > 0 && epochs > 0 &&
    initialLearningRate > 0.0 && initialSigma > 0.0
  }

  class Kohonen {
    const gridX: int
    const gridY: int
    const gridZ: int
    const inputSize: int
    const epochs: int
    const initialLearningRate: real
    const initialSigma: real

    var trainingData: seq<Image>
    var weights: Grid

    /** The configuration is valid, the grid has its shape and every image has `inputSize` pixels. */
    ghost predicate Valid()
      reads this
    {
      && ValidConfig(gridX, gridY, gridZ, inputSize, epochs, initialLearningRate, initialSigma)
      && HasShape(weights, gridX, gridY, gridZ, inputSize)
      && forall i :: 0 <= i < |trainingData| ==> |trainingData[i].pixels| == inputSize
    }

    /** The constructor once its parameter test has passed: store the configuration, allocate the grid. */
    constructor (gridX: int, gridY: int, gridZ: int, inputSize: int, epochs: int,
                 initialLearningRate: real, initialSigma: real)
      requires ValidConfig(gridX, gridY, gridZ, inputSize, epochs, initialLearningRate, initialSigma)
      ensures Valid()
      ensures this.gridX == gridX && this.gridY == gridY && this.gridZ == gridZ
      ensures this.inputSize == inputSize && this.epochs == epochs
      ensures this.initialLearningRate == initialLearningRate && this.initialSigma == initialSigma
      ensures trainingData == []
    {
      this.gridX, this.gridY, this.gridZ := gridX, gridY, gridZ;
      this.inputSize, this.epochs := inputSize, epochs;
      this.initialLearningRate, this.initialSigma := initialLearningRate, initialSigma;
      trainingData := [];
      weights := ZeroGrid(gridX, gridY, gridZ, inputSize);
    }

    /**
     * The constructor as the source writes it: None where it throws
     * `std::invalid_argument`, otherwise a new map with a grid of the
     * configured shape and no training data.
     */
    static method Create(gridX: int, gridY: int, gridZ: int, inputSize: int, epochs: int,
                         initialLearningRate: real, initialSigma: real) returns (som: Option<Kohonen>)
      ensures som.None? <==>
                gridX <= 0 || gridY <= 0 || gridZ <= 0 || inputSize <= 0 || epochs <= 0 ||
                initialLearningRate <= 0.0 || initialSigma <= 0.0
      ensures som.Some? ==> fresh(som.value) && som.value.Valid()
      ensures som.Some? ==>
                && som.value.gridX == gridX && som.value.gridY == gridY && som.value.gridZ == gridZ
                && som.value.inputSize == inputSize && som.value.epochs == epochs
                && som.value.initialLearningRate == initialLearningRate
                && som.value.initialSigma == initialSigma
                && som.value.trainingData == []
                && |som.value.weights| == gridX
                && (forall x :: 0 <= x < gridX ==> |som.value.weights[x]| == gridY)
                && (forall x, y :: 0 <= x < gridX && 0 <= y < gridY ==> |som.value.weights[x][y]| == gridZ)
                && (forall x, y, z :: 0 <= x < gridX && 0 <= y < gridY && 0 <= z < gridZ ==>
                      |som.value.weights[x][y][z]| == inputSize)
    {
      if gridX <= 0 || gridY <= 0 || gridZ <= 0 || inputSize <= 0 || epochs <= 0 ||
         initialLearningRate <= 0.0 || initialSigma <= 0.0 {
        return None;
      }
      var created := new Kohonen(gridX, gridY, gridZ, inputSize, epochs, initialLearningRate, initialSigma);
      return Some(created);
    }

    /** The weight vector of neuron (x, y, z), as `getWeights()[x][y][z]` gives it. */
    function NeuronWeights(x: int, y: int, z: int): (w: seq<real>)
      reads this
      requires Valid()
      requires 0 <= x < gridX && 0 <= y < gridY && 0 <= z < gridZ
      ensures |w| == inputSize
    {
      weights[x][y][z]
    }

    /**
     * `loadData`, on the file's lines (None: the file cannot be opened). The
     * outcome and the new training set are those LoadFile gives; the grid and
     * the configuration are untouched.
     */
    method LoadData(file: Option<seq<string>>, p: NumberParsers) returns (outcome: LoadOutcome)
      requires Valid()
      modifies this`trainingData
      ensures Valid()
      ensures (outcome, trainingData) == LoadFile(file, inputSize, p, old(trainingData))
    {
      if file.None? {
        return Rejected(CannotOpen);
      }
      var lines := file.value;
      if |lines| == 0 {
        return Rejected(NoHeader);
      }
      var header := SplitFields(lines[0]);
      if |header| == 0 {
        return HeaderUndefined;
      }
      if header[0] != "label" || |header| != inputSize + 1 {
        return Rejected(BadHeader(|header|));
      }
      trainingData := [];
      var lineCount := 0;
      assert trainingData + LoadRows(lines[1..], inputSize, p, 1).1 == LoadRows(lines[1..], inputSize, p, 1).1;
      while lineCount < |lines| - 1
        invariant 0 <= lineCount <= |lines| - 1
        invariant forall i :: 0 <= i < |trainingData| ==> |trainingData[i].pixels| == inputSize
        invariant var rest := LoadRows(lines[lineCount + 1..], inputSize, p, lineCount + 1);
                  LoadRows(lines[1..], inputSize, p, 1) == (rest.0, trainingData + rest.1)
      {
        var line := lines[lineCount + 1];
        LoadRowsStep(lines, lineCount + 1, inputSize, p, lineCount + 1);
        lineCount := lineCount + 1;
        var row := ReadRow(line, inputSize, p);
        if !row.Parsed? {
          assert trainingData + [] == trainingData;
          return RowFailure(row, lineCount);
        }
        ghost var rest := LoadRows(lines[lineCount + 1..], inputSize, p, lineCount + 1);
        assert trainingData + ([Image(row.pixels)] + rest.1) == (trainingData + [Image(row.pixels)]) + rest.1;
        trainingData := trainingData + [Image(row.pixels)];
      }
      assert lines[lineCount + 1..] == [];
      assert trainingData + [] == trainingData;
      return Loaded;
    }
  }
}
