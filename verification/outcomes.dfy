/**
 The ways the board logic of main.py can fail. `IndexError` and
 `ZeroDivisionError` are the Python exceptions its list indexing and floor
 divisions can raise; `OutOfDraws` stands for a finite supply of random draws
 running dry while `place_mines` still wants more (the source keeps drawing).
 */
module Outcomes {

  datatype Error = IndexError | ZeroDivisionError | OutOfDraws

  datatype Result<+T> = Ok(value: T) | Err(error: Error)
}
