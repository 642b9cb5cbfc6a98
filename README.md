# Kohonen self-organising map: construction and training-data loading

This project models two parts of the `Kohonen` class of a C++ 3-D
self-organising map (SOM), and proves what they promise:

- **Construction** (`Kohonen::Kohonen`). The constructor rejects a non-positive
  grid extent, input size, epoch count, initial learning rate or initial sigma
  by throwing `std::invalid_argument`. Otherwise it allocates `weights_` as a
  dense `gridX × gridY × gridZ` grid of weight vectors of length `inputSize`.
  In the model, `SelfOrganizingMap.Kohonen.Create` returns `None` where the
  source throws. The class keeps the source's fields: the immutable
  configuration, `trainingData` and `weights`.
- **`loadData`**. It reads a CSV file line by line. The header must be `label`
  followed by exactly `inputSize` field names. Each later line must hold a
  label and at least `inputSize` pixel values. Loading ends in one of three
  ways:
  - it returns true;
  - it returns false;
  - the exception from `std::stoi` on a bad label escapes, because it is not
    caught.

  The training set is cleared only after the header has been accepted.
  Images are then appended in file order, so a failure part-way through the
  file leaves the images read before the bad line.

Modules:

- `CsvLine` (csv_line.dfy) models `std::getline(ss, token, ',')` over one line.
  The stream's read position is a cursor, and `NextField` is one getline call.
  `Fields` gives every field of a line, and `SplitFields` is the header's
  push_back loop. The lemmas show that splitting loses nothing but a final
  comma: it is the inverse of `Join`. They also count the fields.
- `TrainingData` (training_data.dfy) holds the reference definitions. `ParseRow`
  reads one data line, `LoadRows` the data lines and `LoadFile` a whole file.
  `ReadRow` streams one line, one getline call per field, and is proved equal
  to `ParseRow`. The lemmas state the properties of loading.
- `SelfOrganizingMap` (kohonen.dfy) holds the class `Kohonen`. Its `LoadData`
  runs the source's loop over the lines. It is proved to produce exactly the
  outcome and training set that `LoadFile` gives, and to keep the class
  invariant `Valid()`.

Inputs that the source gets through I/O or library calls are parameters here:

- The file is an `Option<seq<string>>`. `None` means the file cannot be opened.
  Otherwise it is the sequence of lines that `getline(file, line)` yields.
- `std::stoi` and `std::stod` are a `NumberParsers` value. `stoiAccepts` says
  whether `std::stoi` returns or throws. `scaledPixel` gives `None` where
  `std::stod` throws, and otherwise the value stored for that pixel.

Where the code and the design description differ, the model follows the code:

- The description asks for exactly `inputSize` pixel fields per row. The code
  reads only the first `inputSize` and ignores the rest (`RowIgnoresExtraFields`).
- The description calls a bad label a format error that loading reports. The
  code's `std::stoi` exception escapes `loadData` instead (`LabelException`).
- A header that ends in a comma has no trailing empty field. So
  `label,p1,…,pN,` passes the check for N inputs (`FieldCount`).

## Model

| member | source | states |
|---|---|---|
| `CsvLine.NextField` | kohonen.cpp:33 | one `getline(ss, token, ',')` call fails exactly when the cursor is at the end of the line, and otherwise moves the cursor forward |
| `CsvLine.NextFieldMeaning` | kohonen.cpp:33 | a successful call's token holds no comma; the call extracts that token followed by a comma, or that token and nothing more when it reaches the end of the line |
| `CsvLine.Fields` | kohonen.cpp:30-35 | a line yields no fields exactly when it is empty |
| `CsvLine.FieldsFromHaveNoComma` | kohonen.cpp:33-35 | no field that repeated getline calls yield contains a comma |
| `CsvLine.SplitFields` | kohonen.cpp:30-35 | the header's push_back loop collects exactly the line's fields |
| `CsvLine.JoinFields` | kohonen.cpp:33-35 | joining the fields with commas gives the line back, except for a final comma, which the split drops |
| `CsvLine.FieldsOfJoin` | kohonen.cpp:33-35 | splitting a comma-join of comma-free fields whose last field is non-empty gives those fields back, interior empty fields included |
| `CsvLine.FieldCount` | kohonen.cpp:33-36 | a line has one field more than it has commas, one fewer when it ends in a comma, and none when it is empty; this is the count the header check compares with `inputSize + 1` |
| `TrainingData.ParsePixels` | kohonen.cpp:65-80 | reading the pixels ends in success with exactly `n` values, too few fields, or an invalid pixel, and in no other way |
| `TrainingData.ParsePixelsMeaning` | kohonen.cpp:66-80 | success means at least `n` fields, all of the first `n` converted, in order; too few fields is reported with the number found, all of them convertible; an invalid pixel is the first field among the first `n` that `std::stod` rejects |
| `TrainingData.ParseRow` | kohonen.cpp:55-80 | a line lacks a label exactly when it is empty; `std::stoi` throws exactly when the line is non-empty and its first field is rejected; a line that reads gives exactly `n` pixels |
| `TrainingData.ReadRow` | kohonen.cpp:55-81 | the streaming read of a data line (label, then `n` getline and stod steps into a fixed-size pixel array) gives what `ParseRow` does |
| `TrainingData.ParsePixelsIgnoresExtra` | kohonen.cpp:66-72 | fields after the first `n` pixel fields have no effect on reading them |
| `TrainingData.RowIgnoresExtraFields` | kohonen.cpp:58-80 | two lines whose first `n + 1` fields agree read the same, so extra pixel fields are ignored |
| `TrainingData.LoadRowsShape` | kohonen.cpp:53-82 | loading data lines ends with true, with a line-level failure or with the label exception, never with a header error; it appends at most one image per line and exactly one per line on success, each of `n` pixels |
| `TrainingData.LoadRowsSucceeds` | kohonen.cpp:53-85 | the data lines load exactly when every one reads, and then image `i` is what line `i` reads as |
| `TrainingData.LoadRowsFirstFailure` | kohonen.cpp:53-81 | at the first line that does not read, loading stops with that line's failure and number, keeping the images of the lines before it |
| `TrainingData.HeaderCheck` | kohonen.cpp:36-41 | a non-empty header is rejected exactly when its first field is not `label` or it does not have `n + 1` fields, and the rejection leaves the training set unchanged |
| `TrainingData.ClearedOnlyAfterHeader` | kohonen.cpp:22-49 | a file that cannot be opened, has no header line or has a bad or empty header leaves the training set unchanged; every other outcome leaves a training set that does not depend on the previous one |
| `TrainingData.LoadFileSucceeds` | kohonen.cpp:29-85 | loading returns true exactly when the header is accepted and every later line reads; the training set then holds one image of `n` pixels per line after the header, in file order |
| `TrainingData.LoadFileStopsAtFirstBadLine` | kohonen.cpp:49-81 | after an accepted header, the first data line `j` that does not read (empty, bad label, too few fields or a bad pixel) decides the outcome, numbered `j`; the training set keeps exactly the images of the lines before it |
| `SelfOrganizingMap.ZeroGrid` | kohonen.cpp:17 | the nested vectors that `resize` allocates form a dense `gx × gy × gz` grid of vectors of length `n` |
| `SelfOrganizingMap.Kohonen.constructor` | kohonen.cpp:10-17 | once the parameters have passed the test, the configuration is stored, the grid has its shape and the training set is empty |
| `SelfOrganizingMap.Kohonen.Create` | kohonen.cpp:10-19 | construction fails exactly when some extent, the input size, the epoch count, the learning rate or sigma is not positive; otherwise it gives a new object with that configuration, no training data and `weights` of exactly `gridX`, `gridY`, `gridZ` entries with vectors of `inputSize` values |
| `SelfOrganizingMap.Kohonen.NeuronWeights` | kohonen.h:25 | every neuron in the grid has a weight vector of exactly `inputSize` values |
| `SelfOrganizingMap.Kohonen.LoadData` | kohonen.cpp:21-86 | loading the file gives the outcome and the training set that `LoadFile` defines, changes nothing else, and keeps every image at `inputSize` pixels |

## Left out

- Opening and reading the file and every console message (`std::cout`,
  `std::cerr`) are not modelled. The file is given as its lines, or `None`
  when it cannot be opened.
- `std::stoi`, `std::stod` and the `/ 255.0` scaling are not modelled as
  arithmetic. They are the abstract `NumberParsers`, so floating-point
  rounding is not modelled.
- The label values are parsed and collected into a vector that is never used.
  Only the exception path of that parse is modelled.
- `SelfOrganizingMap.Kohonen.Create`: does not state the weight values.
  `initializeWeights` (random values from `<random>`) is not part of this
  model, so the grid keeps the zeros that `resize` gives, and only its shape
  is promised.
- `TrainingData.LoadFile`: an empty header line makes the source read
  `header[0]` of an empty vector, which is undefined behaviour. The model
  reports this as the separate outcome `HeaderUndefined` and leaves the
  training set unchanged; the source promises nothing in this case.
- The learning rate and sigma are `real`. A NaN, which passes the source's
  `<= 0.0` test, cannot be expressed.
- The C++ `int` limits are not modelled: the overflow of `inputSize_ + 1` or
  of `lineCount`, and allocation failure of a huge grid.
- `train`, `trainWithBatches`, `validateData`, `saveWeightsForVisualization`,
  `findBestMatchingUnit`, `euclideanDistance`, `neighborhoodFunction` and
  `updateWeights` are left out. They are declared in kohonen.h, but their
  bodies are not part of this model.
- The getters `getGridX`, `getGridY` and `getGridZ` are left out. They return
  the class's `const` fields, which the model exposes directly.
- main.cpp is not part of this model. It only sets fixed parameters and file
  names and calls the class.
